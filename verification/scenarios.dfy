/**
  Concrete grammars built with the grammar builders and parsed against
  concrete inputs: ordered choice that backtracks to a later alternative, an
  optional reference whose element is absent, and a rule whose only child is a
  failing condition.
 */
module Scenarios {
  import opened Options
  import opened Elements
  import opened Matches
  import opened Recognition
  import opened Construction
  import opened Grammars
  import opened RecognitionLemmas

  /** An environment with no regular expression matches and conditions that always refuse. */
  function Plain(input: string): Env {
    Env(input, (expr, rest) => None, (id, text, offset) => false)
  }

  /** The axiom `Word("a")` on input "a" succeeds from offset 0 over one unit. */
  lemma SingleWord()
    ensures var g0 := NewGrammar(Arena([], []), None);
      var (g1, a) := Grammars.Word(g0, "a", "a");
      Parse(Axiom(g1, ElementArg(a)), Plain("a"), 1) == Parsed(Success(0, 1, a))
  {
    var g0 := NewGrammar(Arena([], []), None);
    var (g1, a) := Grammars.Word(g0, "a", "a");
    assert g1.arena.elements[a].kind == Kind.Word("a");
  }

  /** In `Group(Word("cat"), Word("car"))` on "car" the first alternative fails and the second wins with three units. */
  lemma ChoiceFallsThrough()
    ensures var g0 := NewGrammar(Arena([], []), None);
      var (g1, cat) := Grammars.Word(g0, "CAT", "cat");
      var (g2, car) := Grammars.Word(g1, "CAR", "car");
      var (g3, animal) := Grammars.Group(g2, "Animal", [ElementArg(cat), ElementArg(car)]);
      var r := Parse(Axiom(g3, ElementArg(animal)), Plain("car"), 2);
      r.Parsed? && r.m.IsSuccess() && Range(r.m) == (0, 3)
      && r.m.children == [Success(0, 3, car)]
  {
    var g0 := NewGrammar(Arena([], []), None);
    var (g1, cat) := Grammars.Word(g0, "CAT", "cat");
    var (g2, car) := Grammars.Word(g1, "CAR", "car");
    var (g3, animal) := Grammars.Group(g2, "Animal", [ElementArg(cat), ElementArg(car)]);
    var a := g3.arena;
    var refs := a.elements[animal].children;
    assert a.elements[cat].kind == Kind.Word("cat") && a.elements[car].kind == Kind.Word("car");
    assert a.references[refs[0]] == Reference(cat, One, None);
    assert a.references[refs[1]] == Reference(car, One, None);
    ChoiceOverCatAndCar(a, animal, cat, car);
    assert Axiom(g3, ElementArg(animal)).axiom == Some(animal);
  }

  /** The group part of the scenario above, for any arena with that shape. */
  lemma ChoiceOverCatAndCar(a: Arena, animal: Id, cat: Id, car: Id)
    requires a.Valid() && animal < |a.elements| && cat < |a.elements| && car < |a.elements|
    requires a.elements[animal].kind.Group? && |a.elements[animal].children| == 2
    requires a.elements[cat].kind == Kind.Word("cat") && a.elements[car].kind == Kind.Word("car")
    requires a.references[a.elements[animal].children[0]] == Reference(cat, One, None)
    requires a.references[a.elements[animal].children[1]] == Reference(car, One, None)
    ensures var r := RecognizeElement(a, Plain("car"), animal, 0, 2);
      && r.Some? && r.value.IsSuccess() && r.value.element == Some(animal)
      && r.value.children == [Success(0, 3, car)] && Range(r.value) == (0, 3)
  {
    var env := Plain("car");
    var refs := a.elements[animal].children;
    CatRefusesCar(a, refs[0], cat);
    CarMatchesCar(a, refs[1], car);
    forall j | 0 <= j < 1
      ensures RecognizeReference(a, env, refs[j], 0, 2) == Some(FAILURE)
    {
    }
    GroupReturnsFirstSuccess(a, env, animal, 0, 2, 1);
    var m := RecognizeReference(a, env, refs[1], 0, 2).value;
    assert m == Success(0, 3, car);
    assert RecognizeElement(a, env, animal, 0, 2).value.children == [m];
  }

  /** A plain reference to `Word("cat")` fails on "car". */
  lemma CatRefusesCar(a: Arena, rid: RefId, cat: Id)
    requires a.Valid() && rid < |a.references| && a.references[rid] == Reference(cat, One, None)
    requires a.elements[cat].kind == Kind.Word("cat")
    ensures RecognizeReference(a, Plain("car"), rid, 0, 2) == Some(FAILURE)
  {
    var env := Plain("car");
    assert env.input[0..3] != "cat" by {
      assert env.input[0..3][2] != "cat"[2];
    }
    assert RecognizeElement(a, env, cat, 0, 1) == Some(FAILURE);
  }

  /** A plain reference to `Word("car")` matches all of "car". */
  lemma CarMatchesCar(a: Arena, rid: RefId, car: Id)
    requires a.Valid() && rid < |a.references| && a.references[rid] == Reference(car, One, None)
    requires a.elements[car].kind == Kind.Word("car")
    ensures RecognizeReference(a, Plain("car"), rid, 0, 2) == Some(Success(0, 3, car))
  {
    assert RecognizeElement(a, Plain("car"), car, 0, 1) == Some(Success(0, 3, car));
  }

  /** An optional reference to `Word("x")` on input "y" still succeeds, with the empty match at offset 0. */
  lemma OptionalAbsent()
    ensures var g0 := NewGrammar(Arena([], []), None);
      var (g1, x) := Grammars.Word(g0, "X", "x");
      var (a2, r) := ElementOptional(g1.arena, x);
      RecognizeReference(a2, Plain("y"), r, 0, 1) == Some(Empty(0))
  {
    var g0 := NewGrammar(Arena([], []), None);
    var (g1, x) := Grammars.Word(g0, "X", "x");
    var (a2, r) := ElementOptional(g1.arena, x);
    assert a2.elements[x].kind == Kind.Word("x");
    assert "y"[0..1] != "x" by {
      assert "y"[0..1][0] != "x"[0];
    }
  }

  /** A rule whose only child is a condition that refuses fails, whatever the input. */
  lemma RuleOfRefusingCondition(input: string)
    ensures var g0 := NewGrammar(Arena([], []), None);
      var (g1, c) := ACondition(g0);
      var (g2, rule) := Grammars.Rule(g1, "Guarded", [ElementArg(c)]);
      Parse(Axiom(g2, ElementArg(rule)), Plain(input), 2) == Parsed(FAILURE)
  {
    var g0 := NewGrammar(Arena([], []), None);
    var (g1, c) := ACondition(g0);
    var (g2, rule) := Grammars.Rule(g1, "Guarded", [ElementArg(c)]);
    var a := g2.arena;
    var refs := a.elements[rule].children;
    assert a.elements[c].kind == Kind.Condition;
    assert a.references[refs[0]] == Reference(c, One, None);
    RefusingConditionFailsRule(a, rule, c, input);
    assert Axiom(g2, ElementArg(rule)).axiom == Some(rule);
  }

  /** The rule part of the scenario above, for any arena with that shape. */
  lemma RefusingConditionFailsRule(a: Arena, rule: Id, c: Id, input: string)
    requires a.Valid() && rule < |a.elements| && c < |a.elements|
    requires a.elements[rule].kind == Kind.Rule && |a.elements[rule].children| == 1
    requires a.elements[c].kind == Kind.Condition
    requires a.references[a.elements[rule].children[0]] == Reference(c, One, None)
    ensures RecognizeElement(a, Plain(input), rule, 0, 2) == Some(FAILURE)
  {
    var env := Plain(input);
    var refs := a.elements[rule].children;
    assert RecognizeElement(a, env, c, 0, 1) == Some(FAILURE);
    assert RecognizeReference(a, env, refs[0], 0, 2) == Some(FAILURE);
    RuleFailsOnChildFailure(a, env, rule, 0, 2, [], 0);
  }

  /** `g.axiom(Word("a").optional())`: the binding as written fails its assertion, while the
      intended behaviour makes the word the axiom. */
  lemma AxiomOfOptionalWord()
    ensures var g0 := NewGrammar(Arena([], []), None);
      var (g1, w) := Grammars.Word(g0, "A", "a");
      var (a2, r) := ElementOptional(g1.arena, w);
      var g2 := g1.(arena := a2);
      AxiomAsWritten(g2, ReferenceArg(r)).None? && Axiom(g2, ReferenceArg(r)).axiom == Some(w)
  {
  }
}
