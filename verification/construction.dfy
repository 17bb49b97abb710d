/**
  Building elements and references: the fluent calls of the Python binding's
  `Reference` and `ParsingElement` classes, as transitions of the arena.

  Python references and elements are mutable objects shared by pointer, so a
  setter changes the one object every holder sees, and returns that same
  object. Here a transition returns the new arena together with the identity
  it hands back.
 */
module Construction {
  import opened Options
  import opened Elements

  /** What `add` and `axiom` accept: an element, or a reference to one. */
  datatype Arg = ElementArg(id: Id) | ReferenceArg(rid: RefId)

  predicate ArgIn(a: Arena, x: Arg) {
    match x
    case ElementArg(e) => e < |a.elements|
    case ReferenceArg(r) => r < |a.references|
  }

  predicate ArgsIn(a: Arena, xs: seq<Arg>) {
    forall i | 0 <= i < |xs| :: ArgIn(a, xs[i])
  }

  /** `a'` keeps every element and reference of `a` and may only add references after them. */
  predicate ExtendsReferences(a: Arena, a': Arena) {
    && a'.elements == a.elements
    && |a.references| <= |a'.references|
    && a'.references[..|a.references|] == a.references
  }

  /** `a'` differs from `a` at most in reference `r`, and not in what `r` wraps. */
  predicate OnlyReferenceTouched(a: Arena, a': Arena, r: RefId)
    requires r < |a.references|
  {
    && a'.elements == a.elements
    && |a'.references| == |a.references|
    && a'.references[r].element == a.references[r].element
    && forall q | 0 <= q < |a.references| && q != r :: a'.references[q] == a.references[q]
  }

  /** `r` is the reference that `x` stands for in `a'`: `x` itself when it is a
      reference, otherwise a reference created after `a` that wraps `x` with
      cardinality one and no name. */
  predicate Resolves(a: Arena, a': Arena, x: Arg, r: RefId) {
    && r < |a'.references|
    && match x
       case ReferenceArg(q) => r == q
       case ElementArg(e) => |a.references| <= r && a'.references[r] == Reference(e, One, None)
  }

  // ---------------------------------------------------------------------------
  // References
  // ---------------------------------------------------------------------------

  /** A fresh reference wrapping element `e`, with the default cardinality one and no name. */
  function NewReference(a: Arena, e: Id): (res: (Arena, RefId))
    requires a.Valid() && e < |a.elements|
    ensures res.0.Valid() && ExtendsReferences(a, res.0)
    ensures res.1 == |a.references| && |res.0.references| == |a.references| + 1
    ensures res.0.references[res.1].element == e
    ensures res.0.references[res.1].cardinality.Char() == CARDINALITY_ONE
    ensures res.0.references[res.1].name.None?
  {
    (a.(references := a.references + [Reference(e, One, None)]), |a.references|)
  }

  /** Sets the cardinality of reference `r` and hands `r` back. */
  function SetCardinality(a: Arena, r: RefId, c: Cardinality): (res: (Arena, RefId))
    requires a.Valid() && r < |a.references|
    ensures res.0.Valid() && res.1 == r && OnlyReferenceTouched(a, res.0, r)
    ensures res.0.references[r].cardinality == c
    ensures res.0.references[r].name == a.references[r].name
  {
    (a.(references := a.references[r := a.references[r].(cardinality := c)]), r)
  }

  /** `Reference.one`: cardinality `'1'`, nothing else changes, the same reference is returned. */
  function ReferenceOne(a: Arena, r: RefId): (res: (Arena, RefId))
    requires a.Valid() && r < |a.references|
    ensures res.0.Valid() && res.1 == r && OnlyReferenceTouched(a, res.0, r)
    ensures res.0.references[r].cardinality.Char() == '1'
    ensures res.0.references[r].name == a.references[r].name
  {
    SetCardinality(a, r, One)
  }

  /** `Reference.optional`: cardinality `'?'`, nothing else changes, the same reference is returned. */
  function ReferenceOptional(a: Arena, r: RefId): (res: (Arena, RefId))
    requires a.Valid() && r < |a.references|
    ensures res.0.Valid() && res.1 == r && OnlyReferenceTouched(a, res.0, r)
    ensures res.0.references[r].cardinality.Char() == '?'
    ensures res.0.references[r].name == a.references[r].name
  {
    SetCardinality(a, r, Optional)
  }

  /** `Reference.zeroOrMore`: cardinality `'*'`, nothing else changes, the same reference is returned. */
  function ReferenceZeroOrMore(a: Arena, r: RefId): (res: (Arena, RefId))
    requires a.Valid() && r < |a.references|
    ensures res.0.Valid() && res.1 == r && OnlyReferenceTouched(a, res.0, r)
    ensures res.0.references[r].cardinality.Char() == '*'
    ensures res.0.references[r].name == a.references[r].name
  {
    SetCardinality(a, r, ManyOptional)
  }

  /** `Reference.oneOrMore`: cardinality `'+'`, nothing else changes, the same reference is returned. */
  function ReferenceOneOrMore(a: Arena, r: RefId): (res: (Arena, RefId))
    requires a.Valid() && r < |a.references|
    ensures res.0.Valid() && res.1 == r && OnlyReferenceTouched(a, res.0, r)
    ensures res.0.references[r].cardinality.Char() == '+'
    ensures res.0.references[r].name == a.references[r].name
  {
    SetCardinality(a, r, Many)
  }

  /** `Reference._as`: names reference `r`, keeps its cardinality, returns `r`. */
  function ReferenceAs(a: Arena, r: RefId, name: string): (res: (Arena, RefId))
    requires a.Valid() && r < |a.references|
    ensures res.0.Valid() && res.1 == r && OnlyReferenceTouched(a, res.0, r)
    ensures res.0.references[r].name == Some(name)
    ensures res.0.references[r].cardinality == a.references[r].cardinality
  {
    (a.(references := a.references[r := a.references[r].(name := Some(name))]), r)
  }

  /** The reference an argument stands for: the argument itself, or a fresh reference wrapping it. */
  function Ensure(a: Arena, x: Arg): (res: (Arena, RefId))
    requires a.Valid() && ArgIn(a, x)
    ensures res.0.Valid() && ExtendsReferences(a, res.0)
    ensures Resolves(a, res.0, x, res.1)
  {
    match x
    case ReferenceArg(r) => (a, r)
    case ElementArg(e) => NewReference(a, e)
  }

  // ---------------------------------------------------------------------------
  // Elements
  // ---------------------------------------------------------------------------

  /** A fresh element of the given kind, unnamed and without children; its arena
      index is larger than every arena index handed out before. */
  function NewElement(a: Arena, kind: Kind): (res: (Arena, Id))
    requires a.Valid()
    ensures res.0.Valid()
    ensures res.1 == |a.elements| && |res.0.elements| == |a.elements| + 1
    ensures res.0.elements[..|a.elements|] == a.elements && res.0.references == a.references
    ensures res.0.elements[res.1] == Element(kind, None, [])
  {
    (a.(elements := a.elements + [Element(kind, None, [])]), |a.elements|)
  }

  /** `setName`: names element `e`, changes nothing else, returns `e`. */
  function SetName(a: Arena, e: Id, name: string): (res: (Arena, Id))
    requires a.Valid() && e < |a.elements|
    ensures res.0.Valid() && res.1 == e
    ensures res.0.references == a.references && |res.0.elements| == |a.elements|
    ensures res.0.elements[e] == a.elements[e].(name := Some(name))
    ensures forall x | 0 <= x < |a.elements| && x != e :: res.0.elements[x] == a.elements[x]
  {
    (a.(elements := a.elements[e := a.elements[e].(name := Some(name))]), e)
  }

  /**
    `ParsingElement_add`: appends reference `r` to the children of element `e`
    when `e` is a group or a rule; on a terminal element it has no effect.
   */
  function AppendChild(a: Arena, e: Id, r: RefId): (a': Arena)
    requires a.Valid() && e < |a.elements| && r < |a.references|
    ensures a'.Valid() && a'.references == a.references && |a'.elements| == |a.elements|
    ensures a.elements[e].kind.Composite() ==>
      a'.elements[e] == a.elements[e].(children := a.elements[e].children + [r])
    ensures !a.elements[e].kind.Composite() ==> a' == a
    ensures forall x | 0 <= x < |a.elements| && x != e :: a'.elements[x] == a.elements[x]
  {
    if a.elements[e].kind.Composite() then
      a.(elements := a.elements[e := a.elements[e].(children := a.elements[e].children + [r])])
    else
      a
  }

  /**
    `ParsingElement.add` (and `set`, which is the same call): ensures a
    reference for each argument, in argument order (element arguments get a
    fresh reference each), and hands it to `ParsingElement_add`, which appends
    it to the children of a group or rule `e`; a terminal `e` keeps its
    children. Returns `e`.
   */
  function Add(a: Arena, e: Id, xs: seq<Arg>): (res: (Arena, Id))
    requires a.Valid() && e < |a.elements| && ArgsIn(a, xs)
    ensures res.0.Valid() && res.1 == e
    ensures |res.0.elements| == |a.elements|
    ensures forall x | 0 <= x < |a.elements| && x != e :: res.0.elements[x] == a.elements[x]
    ensures res.0.elements[e].kind == a.elements[e].kind && res.0.elements[e].name == a.elements[e].name
    ensures |a.references| <= |res.0.references| && res.0.references[..|a.references|] == a.references
    ensures !a.elements[e].kind.Composite() ==> res.0.elements[e] == a.elements[e]
    ensures a.elements[e].kind.Composite() ==>
      && |res.0.elements[e].children| == |a.elements[e].children| + |xs|
      && res.0.elements[e].children[..|a.elements[e].children|] == a.elements[e].children
      && forall i | 0 <= i < |xs| ::
           Resolves(a, res.0, xs[i], res.0.elements[e].children[|a.elements[e].children| + i])
    decreases |xs|
  {
    if |xs| == 0 then
      (a, e)
    else
      var (a1, r) := Ensure(a, xs[0]);
      var a2 := AppendChild(a1, e, r);
      assert ArgsIn(a2, xs[1..]) by {
        forall i | 0 <= i < |xs[1..]| ensures ArgIn(a2, xs[1..][i]) {
          assert xs[1..][i] == xs[i + 1];
        }
      }
      var res := Add(a2, e, xs[1..]);
      if a.elements[e].kind.Composite() then
        AddResolvesAll(a, a1, a2, res.0, e, xs, r);
        res
      else
        assert res.0.references[..|a.references|] == res.0.references[..|a2.references|][..|a.references|];
        res
  }

  /** The bookkeeping behind `Add`: what the first argument resolved to survives the
      rest of the additions, and so do the resolutions of the others. */
  lemma AddResolvesAll(a: Arena, a1: Arena, a2: Arena, a3: Arena, e: Id, xs: seq<Arg>, r: RefId)
    requires a.Valid() && e < |a.elements| && |xs| > 0
    requires ExtendsReferences(a, a1) && Resolves(a, a1, xs[0], r)
    requires a2.references == a1.references && |a2.elements| == |a1.elements|
    requires a2.elements[e] == a1.elements[e].(children := a1.elements[e].children + [r])
    requires |a2.references| <= |a3.references| && a3.references[..|a2.references|] == a2.references
    requires |a3.elements| == |a2.elements| && e < |a3.elements|
    requires |a3.elements[e].children| == |a2.elements[e].children| + |xs| - 1
    requires a3.elements[e].children[..|a2.elements[e].children|] == a2.elements[e].children
    requires forall i | 0 <= i < |xs[1..]| ::
      Resolves(a2, a3, xs[1..][i], a3.elements[e].children[|a2.elements[e].children| + i])
    ensures |a3.elements[e].children| == |a.elements[e].children| + |xs|
    ensures a3.elements[e].children[..|a.elements[e].children|] == a.elements[e].children
    ensures |a.references| <= |a3.references| && a3.references[..|a.references|] == a.references
    ensures forall i | 0 <= i < |xs| ::
      Resolves(a, a3, xs[i], a3.elements[e].children[|a.elements[e].children| + i])
  {
    var n := |a.elements[e].children|;
    assert a3.elements[e].children[..n] == a3.elements[e].children[..n + 1][..n];
    assert a3.references[..|a.references|] == a3.references[..|a2.references|][..|a.references|];
    forall i | 0 <= i < |xs|
      ensures Resolves(a, a3, xs[i], a3.elements[e].children[n + i])
    {
      if i == 0 {
        assert a3.elements[e].children[n] == a3.elements[e].children[..n + 1][n] == r;
        assert a3.references[r] == a3.references[..|a2.references|][r] == a1.references[r];
      } else {
        assert xs[1..][i - 1] == xs[i];
      }
    }
  }

  /** Arguments still resolve after the arena has grown. */
  lemma ArgsInExtended(a: Arena, a': Arena, xs: seq<Arg>)
    requires ArgsIn(a, xs)
    requires |a.elements| <= |a'.elements| && |a.references| <= |a'.references|
    ensures ArgsIn(a', xs)
  {
  }

  /**
    Adding children in two calls is adding them in one: `e.add(*xs).add(*ys)`
    leaves the same arena as `e.add(*(xs + ys))`.
   */
  lemma {:induction false} AddConcatenates(a: Arena, e: Id, xs: seq<Arg>, ys: seq<Arg>)
    requires a.Valid() && e < |a.elements| && ArgsIn(a, xs) && ArgsIn(a, ys)
    ensures ArgsIn(a, xs + ys)
    ensures ArgsIn(Add(a, e, xs).0, ys)
    ensures Add(Add(a, e, xs).0, e, ys) == Add(a, e, xs + ys)
    decreases |xs|
  {
    assert ArgsIn(a, xs + ys) by {
      forall i | 0 <= i < |xs + ys| ensures ArgIn(a, (xs + ys)[i]) {
        if i < |xs| { assert (xs + ys)[i] == xs[i]; } else { assert (xs + ys)[i] == ys[i - |xs|]; }
      }
    }
    ArgsInExtended(a, Add(a, e, xs).0, ys);
    if |xs| == 0 {
      assert xs + ys == ys;
    } else {
      var (a1, r) := Ensure(a, xs[0]);
      var a2 := AppendChild(a1, e, r);
      assert (xs + ys)[0] == xs[0];
      assert (xs + ys)[1..] == xs[1..] + ys;
      assert ArgsIn(a2, xs[1..]) by {
        forall i | 0 <= i < |xs[1..]| ensures ArgIn(a2, xs[1..][i]) {
          assert xs[1..][i] == xs[i + 1];
        }
      }
      ArgsInExtended(a, a2, ys);
      AddConcatenates(a2, e, xs[1..], ys);
    }
  }

  /** Naming a reference and setting its cardinality commute: `r.optional()._as(n)` and
      `r._as(n).optional()` leave the same reference. */
  lemma NamingCommutesWithCardinality(a: Arena, r: RefId, name: string, c: Cardinality)
    requires a.Valid() && r < |a.references|
    ensures ReferenceAs(SetCardinality(a, r, c).0, r, name) == SetCardinality(ReferenceAs(a, r, name).0, r, c)
    ensures ReferenceAs(SetCardinality(a, r, c).0, r, name).0.references[r] == Reference(a.references[r].element, c, Some(name))
  {
    var x := ReferenceAs(SetCardinality(a, r, c).0, r, name).0;
    var y := SetCardinality(ReferenceAs(a, r, name).0, r, c).0;
    assert x.references == y.references by {
      forall q | 0 <= q < |x.references| ensures x.references[q] == y.references[q] {
      }
    }
  }

  /** Of two cardinality settings in a row only the last one counts. */
  lemma LastCardinalityWins(a: Arena, r: RefId, c1: Cardinality, c2: Cardinality)
    requires a.Valid() && r < |a.references|
    ensures SetCardinality(SetCardinality(a, r, c1).0, r, c2) == SetCardinality(a, r, c2)
  {
    var x := SetCardinality(SetCardinality(a, r, c1).0, r, c2).0;
    var y := SetCardinality(a, r, c2).0;
    assert x.references == y.references by {
      forall q | 0 <= q < |x.references| ensures x.references[q] == y.references[q] {
      }
    }
  }

  /** `ParsingElement.optional`: a fresh reference to `e` with cardinality `'?'`; `e` is unchanged. */
  function ElementOptional(a: Arena, e: Id): (res: (Arena, RefId))
    requires a.Valid() && e < |a.elements|
    ensures res.0.Valid() && ExtendsReferences(a, res.0)
    ensures res.1 == |a.references| && |res.0.references| == |a.references| + 1
    ensures res.0.references[res.1].element == e
    ensures res.0.references[res.1].cardinality.Char() == '?'
    ensures res.0.references[res.1].name.None?
  {
    var (a1, r) := NewReference(a, e);
    ReferenceOptional(a1, r)
  }

  /** `ParsingElement.zeroOrMore`: a fresh reference to `e` with cardinality `'*'`; `e` is unchanged. */
  function ElementZeroOrMore(a: Arena, e: Id): (res: (Arena, RefId))
    requires a.Valid() && e < |a.elements|
    ensures res.0.Valid() && ExtendsReferences(a, res.0)
    ensures res.1 == |a.references| && |res.0.references| == |a.references| + 1
    ensures res.0.references[res.1].element == e
    ensures res.0.references[res.1].cardinality.Char() == '*'
    ensures res.0.references[res.1].name.None?
  {
    var (a1, r) := NewReference(a, e);
    ReferenceZeroOrMore(a1, r)
  }

  /** `ParsingElement.oneOrMore`: a fresh reference to `e` with cardinality `'+'`; `e` is unchanged. */
  function ElementOneOrMore(a: Arena, e: Id): (res: (Arena, RefId))
    requires a.Valid() && e < |a.elements|
    ensures res.0.Valid() && ExtendsReferences(a, res.0)
    ensures res.1 == |a.references| && |res.0.references| == |a.references| + 1
    ensures res.0.references[res.1].element == e
    ensures res.0.references[res.1].cardinality.Char() == '+'
    ensures res.0.references[res.1].name.None?
  {
    var (a1, r) := NewReference(a, e);
    ReferenceOneOrMore(a1, r)
  }

  /** `ParsingElement._as`: a fresh reference to `e` named `name`, with cardinality one; `e` is unchanged. */
  function ElementAs(a: Arena, e: Id, name: string): (res: (Arena, RefId))
    requires a.Valid() && e < |a.elements|
    ensures res.0.Valid() && ExtendsReferences(a, res.0)
    ensures res.1 == |a.references| && |res.0.references| == |a.references| + 1
    ensures res.0.references[res.1].element == e
    ensures res.0.references[res.1].cardinality.Char() == '1'
    ensures res.0.references[res.1].name == Some(name)
  {
    var (a1, r) := NewReference(a, e);
    ReferenceAs(a1, r, name)
  }

  /** A new element of the given kind built with `add(*xs)`: a group or rule gets as children the references the arguments stand for, a terminal none. */
  function NewComposite(a: Arena, kind: Kind, xs: seq<Arg>): (res: (Arena, Id))
    requires a.Valid() && ArgsIn(a, xs)
    ensures res.0.Valid() && res.1 == |a.elements| && |res.0.elements| == |a.elements| + 1
    ensures res.0.elements[..|a.elements|] == a.elements
    ensures |a.references| <= |res.0.references| && res.0.references[..|a.references|] == a.references
    ensures res.0.elements[res.1].kind == kind && res.0.elements[res.1].name.None?
    ensures !kind.Composite() ==> res.0.elements[res.1].children == []
    ensures kind.Composite() ==>
      && |res.0.elements[res.1].children| == |xs|
      && forall i | 0 <= i < |xs| :: Resolves(a, res.0, xs[i], res.0.elements[res.1].children[i])
  {
    var (a1, e) := NewElement(a, kind);
    assert ArgsIn(a1, xs);
    var res := Add(a1, e, xs);
    assert res.0.elements[..|a.elements|] == a.elements by {
      forall x | 0 <= x < |a.elements| ensures res.0.elements[x] == a.elements[x] {
        assert a1.elements[x] == a1.elements[..|a.elements|][x];
      }
    }
    res
  }
}
