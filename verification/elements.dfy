/**
  Parsing elements, references and grammars as data.

  The library links elements and references by pointer, and grammars are
  routinely cyclic (an `Expression` rule may refer to itself). Here every
  element and every reference lives in an `Arena` and is named by its index,
  which is also its creation order.
 */
module Elements {
  import opened Options

  /** Identity of a parsing element: its index in the arena's element table. */
  type Id = nat

  /** Identity of a reference: its index in the arena's reference table. */
  type RefId = nat

  // The characters the library stores in `Reference.cardinality`.
  const CARDINALITY_OPTIONAL: char := '?'
  const CARDINALITY_ONE: char := '1'
  const CARDINALITY_MANY_OPTIONAL: char := '*'
  const CARDINALITY_MANY: char := '+'

  /** How many times a reference lets its element match in a row. */
  datatype Cardinality = One | Optional | Many | ManyOptional {

    /** A failed element still yields a (zero-width) success. */
    predicate AcceptsAbsence() {
      Optional? || ManyOptional?
    }

    /** The element is matched again after each success. */
    predicate Repeats() {
      Many? || ManyOptional?
    }

    /** The character the library uses for this cardinality. */
    function Char(): char {
      match this
      case One => CARDINALITY_ONE
      case Optional => CARDINALITY_OPTIONAL
      case Many => CARDINALITY_MANY
      case ManyOptional => CARDINALITY_MANY_OPTIONAL
    }
  }

  /** Reads back a cardinality character; any other character is not a cardinality. */
  function CardinalityOf(c: char): Option<Cardinality> {
    if c == CARDINALITY_ONE then Some(One)
    else if c == CARDINALITY_OPTIONAL then Some(Optional)
    else if c == CARDINALITY_MANY then Some(Many)
    else if c == CARDINALITY_MANY_OPTIONAL then Some(ManyOptional)
    else None
  }

  /** Encoding a cardinality as its character and reading it back is the identity. */
  lemma CardinalityCharRoundTrip(c: Cardinality)
    ensures CardinalityOf(c.Char()) == Some(c)
  {
  }

  /** Every character that reads back as a cardinality is that cardinality's character. */
  lemma CardinalityOfInverse(c: char)
    ensures CardinalityOf(c).Some? ==> CardinalityOf(c).value.Char() == c
    ensures CardinalityOf(c).Some? <==> c in {'1', '?', '+', '*'}
  {
  }

  /** The six kinds of parsing element, with the configuration each carries. */
  datatype Kind =
    | Word(word: string)     // a literal
    | Token(expr: string)    // a regular expression, matched anchored
    | Group                  // ordered choice among the children
    | Rule                   // sequence of the children
    | Procedure              // zero-width, always succeeds
    | Condition              // zero-width, may fail
  {
    /** Groups and rules hold child references; the other kinds are terminals. */
    predicate Composite() {
      Group? || Rule?
    }
  }

  /** A child slot: the wrapped element, its cardinality and an optional name. */
  datatype Reference = Reference(element: Id, cardinality: Cardinality, name: Option<string>)

  /** A parsing element: its kind, its (optional) name and its child references in order. */
  datatype Element = Element(kind: Kind, name: Option<string>, children: seq<RefId>)

  /** All elements and references created so far, indexed by identity. */
  datatype Arena = Arena(elements: seq<Element>, references: seq<Reference>) {

    predicate RefsIn(refs: seq<RefId>) {
      forall i | 0 <= i < |refs| :: refs[i] < |references|
    }

    /** Every reference wraps an existing element and every child is an existing reference. */
    predicate Valid() {
      && (forall r | 0 <= r < |references| :: references[r].element < |elements|)
      && (forall e | 0 <= e < |elements| :: RefsIn(elements[e].children))
    }
  }

  /** A grammar: the arena it owns, its name, its symbol table, its axiom and its skip element. */
  datatype Grammar = Grammar(
    name: Option<string>,
    arena: Arena,
    symbols: map<string, Id>,
    axiom: Option<Id>,
    skip: Option<Id>)
  {
    predicate Valid() {
      && arena.Valid()
      && (forall k | k in symbols :: symbols[k] < |arena.elements|)
      && (axiom.Some? ==> axiom.value < |arena.elements|)
      && (skip.Some? ==> skip.value < |arena.elements|)
    }
  }
}
