/**
  The Python binding's `Symbols` table and `Grammar` builders: creating
  elements, naming them and registering them by name, and designating the
  axiom and the skip element.
 */
module Grammars {
  import opened Options
  import opened Elements
  import opened Construction

  // ---------------------------------------------------------------------------
  // Symbols
  // ---------------------------------------------------------------------------

  /** `symbols[key] = value`: binds `key` to `value`, and hands `value` back. */
  function Store(symbols: map<string, Id>, key: string, value: Id): (res: (map<string, Id>, Id))
    ensures res.1 == value
    ensures Lookup(res.0, key) == Some(value)
    ensures forall k | k != key :: Lookup(res.0, k) == Lookup(symbols, k)
    ensures res.0.Keys == symbols.Keys + {key}
  {
    (symbols[key := value], value)
  }

  /** `symbols[key]`: the element bound to `key`; an unbound key has none (Python raises). */
  function Lookup(symbols: map<string, Id>, key: string): (r: Option<Id>)
    ensures r.Some? <==> key in symbols
    ensures r.Some? ==> symbols[key] == r.value
  {
    if key in symbols then Some(symbols[key]) else None
  }

  // ---------------------------------------------------------------------------
  // Grammar
  // ---------------------------------------------------------------------------

  /** A new grammar over the elements created so far: no symbols, no axiom, no skip. */
  function NewGrammar(a: Arena, name: Option<string>): (g: Grammar)
    requires a.Valid()
    ensures g.Valid() && g.arena == a && g.name == name
    ensures forall k :: Lookup(g.symbols, k).None?
    ensures g.axiom.None? && g.skip.None?
  {
    Grammar(name, a, map[], None, None)
  }

  /**
    `g'` is `g` plus element `id`: created after every existing element, of
    kind `kind`, named `name` (if any), with children the references `xs`
    stand for if it is a group or a rule, and none otherwise. Only a named
    element is registered in the symbol table, under its name; nothing else
    about the grammar changes.
   */
  predicate Defines(g: Grammar, g': Grammar, id: Id, name: Option<string>, kind: Kind, xs: seq<Arg>) {
    && id == |g.arena.elements| && |g'.arena.elements| == id + 1
    && g'.arena.elements[..id] == g.arena.elements
    && |g.arena.references| <= |g'.arena.references|
    && g'.arena.references[..|g.arena.references|] == g.arena.references
    && g'.arena.elements[id].kind == kind
    && g'.arena.elements[id].name == name
    && (!kind.Composite() ==> g'.arena.elements[id].children == [])
    && (kind.Composite() ==>
          && |g'.arena.elements[id].children| == |xs|
          && forall i | 0 <= i < |xs| :: Resolves(g.arena, g'.arena, xs[i], g'.arena.elements[id].children[i]))
    && g'.name == g.name && g'.axiom == g.axiom && g'.skip == g.skip
    && g'.symbols == (if name.Some? then g.symbols[name.value := id] else g.symbols)
  }

  /** Creates an element of `kind` with children `xs`, names it and registers it under `name`. */
  function DefineNamed(g: Grammar, name: string, kind: Kind, xs: seq<Arg>): (res: (Grammar, Id))
    requires g.Valid() && ArgsIn(g.arena, xs)
    ensures res.0.Valid() && Defines(g, res.0, res.1, Some(name), kind, xs)
    ensures Lookup(res.0.symbols, name) == Some(res.1)
  {
    var (a1, e) := NewComposite(g.arena, kind, xs);
    var (a2, _) := SetName(a1, e, name);
    var (symbols, _) := Store(g.symbols, name, e);
    assert a2.elements[..e] == g.arena.elements by {
      forall x | 0 <= x < e ensures a2.elements[x] == g.arena.elements[x] {
        assert a1.elements[x] == a1.elements[..e][x];
      }
    }
    (g.(arena := a2, symbols := symbols), e)
  }

  /** Creates an unnamed element of `kind` with children `xs`; the symbol table is untouched. */
  function DefineAnonymous(g: Grammar, kind: Kind, xs: seq<Arg>): (res: (Grammar, Id))
    requires g.Valid() && ArgsIn(g.arena, xs)
    ensures res.0.Valid() && Defines(g, res.0, res.1, None, kind, xs)
    ensures res.0.symbols == g.symbols
  {
    var (a1, e) := NewComposite(g.arena, kind, xs);
    (g.(arena := a1), e)
  }

  /** `Grammar.word`: a word element for `text`, named and registered as `name`. */
  function Word(g: Grammar, name: string, text: string): (res: (Grammar, Id))
    requires g.Valid()
    ensures res.0.Valid() && Defines(g, res.0, res.1, Some(name), Kind.Word(text), [])
    ensures Lookup(res.0.symbols, name) == Some(res.1)
  {
    DefineNamed(g, name, Kind.Word(text), [])
  }

  /** `Grammar.token`: a token element for expression `expr`, named and registered as `name`. */
  function Token(g: Grammar, name: string, expr: string): (res: (Grammar, Id))
    requires g.Valid()
    ensures res.0.Valid() && Defines(g, res.0, res.1, Some(name), Kind.Token(expr), [])
    ensures Lookup(res.0.symbols, name) == Some(res.1)
  {
    DefineNamed(g, name, Kind.Token(expr), [])
  }

  /** `Grammar.procedure`: a procedure element, named and registered as `name`. */
  function Procedure(g: Grammar, name: string): (res: (Grammar, Id))
    requires g.Valid()
    ensures res.0.Valid() && Defines(g, res.0, res.1, Some(name), Kind.Procedure, [])
    ensures Lookup(res.0.symbols, name) == Some(res.1)
  {
    DefineNamed(g, name, Kind.Procedure, [])
  }

  /** `Grammar.aprocedure`: an unnamed procedure element; no symbol is registered. */
  function AProcedure(g: Grammar): (res: (Grammar, Id))
    requires g.Valid()
    ensures res.0.Valid() && Defines(g, res.0, res.1, None, Kind.Procedure, [])
    ensures res.0.symbols == g.symbols
  {
    DefineAnonymous(g, Kind.Procedure, [])
  }

  /** `Grammar.condition`: a condition element, named and registered as `name`. */
  function Condition(g: Grammar, name: string): (res: (Grammar, Id))
    requires g.Valid()
    ensures res.0.Valid() && Defines(g, res.0, res.1, Some(name), Kind.Condition, [])
    ensures Lookup(res.0.symbols, name) == Some(res.1)
  {
    DefineNamed(g, name, Kind.Condition, [])
  }

  /** `Grammar.acondition`: an unnamed condition element; no symbol is registered. */
  function ACondition(g: Grammar): (res: (Grammar, Id))
    requires g.Valid()
    ensures res.0.Valid() && Defines(g, res.0, res.1, None, Kind.Condition, [])
    ensures res.0.symbols == g.symbols
  {
    DefineAnonymous(g, Kind.Condition, [])
  }

  /** `Grammar.group`: a group over `xs`, named and registered as `name`. */
  function Group(g: Grammar, name: string, xs: seq<Arg>): (res: (Grammar, Id))
    requires g.Valid() && ArgsIn(g.arena, xs)
    ensures res.0.Valid() && Defines(g, res.0, res.1, Some(name), Kind.Group, xs)
    ensures Lookup(res.0.symbols, name) == Some(res.1)
  {
    DefineNamed(g, name, Kind.Group, xs)
  }

  /** `Grammar.agroup`: an unnamed group over `xs`; no symbol is registered. */
  function AGroup(g: Grammar, xs: seq<Arg>): (res: (Grammar, Id))
    requires g.Valid() && ArgsIn(g.arena, xs)
    ensures res.0.Valid() && Defines(g, res.0, res.1, None, Kind.Group, xs)
    ensures res.0.symbols == g.symbols
  {
    DefineAnonymous(g, Kind.Group, xs)
  }

  /** `Grammar.rule`: a rule over `xs`, named and registered as `name`. */
  function Rule(g: Grammar, name: string, xs: seq<Arg>): (res: (Grammar, Id))
    requires g.Valid() && ArgsIn(g.arena, xs)
    ensures res.0.Valid() && Defines(g, res.0, res.1, Some(name), Kind.Rule, xs)
    ensures Lookup(res.0.symbols, name) == Some(res.1)
  {
    DefineNamed(g, name, Kind.Rule, xs)
  }

  /** `Grammar.arule`: an unnamed rule over `xs`; no symbol is registered. */
  function ARule(g: Grammar, xs: seq<Arg>): (res: (Grammar, Id))
    requires g.Valid() && ArgsIn(g.arena, xs)
    ensures res.0.Valid() && Defines(g, res.0, res.1, None, Kind.Rule, xs)
    ensures res.0.symbols == g.symbols
  {
    DefineAnonymous(g, Kind.Rule, xs)
  }

  /**
    `Grammar.axiom`: a reference designates the element it wraps, an element
    designates itself. Only the axiom changes.
   */
  function Axiom(g: Grammar, x: Arg): (g': Grammar)
    requires g.Valid() && ArgIn(g.arena, x)
    ensures g'.Valid()
    ensures x.ElementArg? ==> g'.axiom == Some(x.id)
    ensures x.ReferenceArg? ==> g'.axiom == Some(g.arena.references[x.rid].element)
    ensures g'.arena == g.arena && g'.symbols == g.symbols && g'.skip == g.skip && g'.name == g.name
  {
    match x
    case ElementArg(e) => g.(axiom := Some(e))
    case ReferenceArg(r) => g.(axiom := Some(g.arena.references[r].element))
  }

  /**
    `Grammar.axiom` as the binding writes it: for a reference it replaces the
    argument by the reference's raw element pointer and then asserts that the
    result is a binding element object, which a raw pointer never is. Every
    reference argument therefore fails the assertion (shown as `None`); an
    element argument behaves as in `Axiom`.
   */
  function AxiomAsWritten(g: Grammar, x: Arg): (r: Option<Grammar>)
    requires g.Valid() && ArgIn(g.arena, x)
    ensures r.Some? <==> x.ElementArg?
    ensures r.Some? ==> r.value.Valid() && r.value.axiom == Some(x.id)
  {
    match x
    case ElementArg(e) => Some(g.(axiom := Some(e)))
    case ReferenceArg(_) => None
  }

  /** The two agree on elements; on any reference the written binding fails where the intended one designates the wrapped element. */
  lemma AxiomAsWrittenRejectsReferences(g: Grammar, x: Arg)
    requires g.Valid() && ArgIn(g.arena, x)
    ensures x.ElementArg? ==> AxiomAsWritten(g, x) == Some(Axiom(g, x))
    ensures x.ReferenceArg? ==>
      AxiomAsWritten(g, x).None? && Axiom(g, x).axiom == Some(g.arena.references[x.rid].element)
  {
  }

  /**
    `Grammar.skip`: only an element is accepted (a reference fails the
    binding's assertion, shown as `None`); it becomes the skip element and
    nothing else changes.
   */
  function Skip(g: Grammar, x: Arg): (r: Option<Grammar>)
    requires g.Valid() && ArgIn(g.arena, x)
    ensures r.Some? <==> x.ElementArg?
    ensures r.Some? ==>
      && r.value.Valid() && r.value.skip == Some(x.id)
      && r.value.arena == g.arena && r.value.symbols == g.symbols
      && r.value.axiom == g.axiom && r.value.name == g.name
  {
    match x
    case ElementArg(e) => Some(g.(skip := Some(e)))
    case ReferenceArg(_) => None
  }

  /** The symbol table after storing `entries` in order, as successive `symbols[k] = v` assignments do. */
  function StoreAll(symbols: map<string, Id>, entries: seq<(string, Id)>): map<string, Id>
    decreases |entries|
  {
    if |entries| == 0 then symbols
    else Store(StoreAll(symbols, entries[..|entries| - 1]), entries[|entries| - 1].0, entries[|entries| - 1].1).0
  }

  /** Entry `i` has `key`, and no later entry does. */
  predicate LastEntryFor(entries: seq<(string, Id)>, key: string, i: int) {
    && 0 <= i < |entries| && entries[i].0 == key
    && forall j | i < j < |entries| :: entries[j].0 != key
  }

  /** The value of the last entry for `key`, if any entry has that key. */
  function LastBinding(entries: seq<(string, Id)>, key: string): (r: Option<Id>)
    ensures r.None? <==> forall i | 0 <= i < |entries| :: entries[i].0 != key
    ensures r.Some? ==> exists i :: LastEntryFor(entries, key, i) && entries[i].1 == r.value
    decreases |entries|
  {
    var n := |entries|;
    if n == 0 then None
    else if entries[n - 1].0 == key then
      assert LastEntryFor(entries, key, n - 1);
      Some(entries[n - 1].1)
    else
      var prefix := entries[..n - 1];
      var r := LastBinding(prefix, key);
      assert forall i | 0 <= i < n - 1 :: prefix[i] == entries[i];
      assert r.Some? ==> exists i :: LastEntryFor(entries, key, i) && entries[i].1 == r.value by {
        if r.Some? {
          var i :| LastEntryFor(prefix, key, i) && prefix[i].1 == r.value;
          assert LastEntryFor(entries, key, i);
        }
      }
      r
  }


  /**
    After a run of stores, a name reads back the value most recently stored
    under it, and a name never stored in the run reads back what it did before.
   */
  lemma {:induction false} LookupAfterStores(symbols: map<string, Id>, entries: seq<(string, Id)>, key: string)
    ensures Lookup(StoreAll(symbols, entries), key) ==
      if LastBinding(entries, key).Some? then LastBinding(entries, key) else Lookup(symbols, key)
    decreases |entries|
  {
    if |entries| > 0 {
      LookupAfterStores(symbols, entries[..|entries| - 1], key);
    }
  }

  /** Registering a name and reading it back gives the registered element, and no
      other name is disturbed. */
  lemma StoreThenLookup(symbols: map<string, Id>, key: string, value: Id, other: string)
    ensures Lookup(Store(symbols, key, value).0, key) == Some(value)
    ensures other != key ==> Lookup(Store(symbols, key, value).0, other) == Lookup(symbols, other)
  {
  }
}
