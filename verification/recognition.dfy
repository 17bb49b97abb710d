/**
  Recognition: matching a parsing element, or a reference to one, at an offset
  of an in-memory input.

  Each recognizer returns `Some(FAILURE)` when the element does not match,
  `Some(m)` with a success `m` when it does, and `None` when the fuel bound on
  nesting and repetition ran out before a verdict was reached. Fuel is spent
  each time a reference hands over to its element.

  Tokens and conditions call into code outside the library (a regular
  expression engine and a user callback); both are parameters of the
  environment.
 */
module Recognition {
  import opened Options
  import opened Elements
  import opened Matches

  /**
    The input and the two outside capabilities recognition depends on:
    `token(expr, rest)` is the length of the prefix of `rest` that the regular
    expression `expr` matches when anchored at the start of `rest`, if any;
    `condition(id, input, offset)` is the verdict of condition element `id`'s
    callback at `offset`.
   */
  datatype Env = Env(
    input: string,
    token: (string, string) -> Option<nat>,
    condition: (Id, string, nat) -> bool)

  /** Word `w` (element `id`) matches exactly when the input at `offset` begins with `w`. */
  function RecognizeWord(id: Id, w: string, input: string, offset: nat): (r: Match)
    requires offset <= |input|
    ensures r.IsSuccess() <==>
      offset + |w| <= |input| && forall k | 0 <= k < |w| :: input[offset + k] == w[k]
    ensures r.IsSuccess() ==>
      && r.offset == offset && r.length == |w| && r.element == Some(id)
      && r.children == [] && r.next == []
  {
    if offset + |w| <= |input| && input[offset..offset + |w|] == w then
      Success(offset, |w|, id)
    else
      assert offset + |w| <= |input| ==> exists k | 0 <= k < |w| :: input[offset + k] != w[k] by {
        if offset + |w| <= |input| {
          var k :| 0 <= k < |w| && input[offset..offset + |w|][k] != w[k];
        }
      }
      FAILURE
  }

  /**
    Token `expr` (element `id`) matches only where the regular expression
    matches anchored at `offset`: the engine sees the input from `offset` on,
    and the match starts exactly there. An answer longer than the remaining
    input is not a match.
   */
  function RecognizeToken(id: Id, expr: string, env: Env, offset: nat): (r: Match)
    requires offset <= |env.input|
    ensures r.IsSuccess() <==>
      env.token(expr, env.input[offset..]).Some? && env.token(expr, env.input[offset..]).value <= |env.input| - offset
    ensures r.IsSuccess() ==>
      && r.offset == offset && env.token(expr, env.input[offset..]) == Some(r.length)
      && r.element == Some(id) && r.children == [] && r.next == []
  {
    match env.token(expr, env.input[offset..])
    case Some(n) =>
      if n <= |env.input| - offset then Success(offset, n, id) else FAILURE
    case None =>
      FAILURE
  }

  /** Matches element `id` at `offset`, dispatching on its kind. */
  function RecognizeElement(a: Arena, env: Env, id: Id, offset: nat, fuel: nat): (r: Option<Match>)
    requires a.Valid() && id < |a.elements| && offset <= |env.input|
    ensures r.Some? && r.value.IsSuccess() ==>
      && WellFormed(r.value, |env.input|)
      && r.value.offset == offset && r.value.element == Some(id) && r.value.next == []
    decreases fuel, |env.input| - offset, 3, 0
  {
    var e := a.elements[id];
    match e.kind
    case Word(w) => Some(RecognizeWord(id, w, env.input, offset))
    case Token(expr) => Some(RecognizeToken(id, expr, env, offset))
    case Group => RecognizeGroup(a, env, id, e.children, offset, fuel)
    case Rule => RecognizeRule(a, env, id, e.children, offset, fuel)
    case Procedure => Some(Success(offset, 0, id))
    case Condition =>
      Some(if env.condition(id, env.input, offset) then Success(offset, 0, id) else FAILURE)
  }

  /**
    Ordered choice over `refs` at `offset` on behalf of group `id`: the first
    reference that matches gives the group's only child, and the group covers
    that child's whole chain.
   */
  function RecognizeGroup(a: Arena, env: Env, id: Id, refs: seq<RefId>, offset: nat, fuel: nat): (r: Option<Match>)
    requires a.Valid() && a.RefsIn(refs) && offset <= |env.input|
    ensures r.Some? && r.value.IsSuccess() ==>
      && WellFormed(r.value, |env.input|)
      && r.value.offset == offset && r.value.element == Some(id) && r.value.next == []
      && |r.value.children| == 1
    decreases fuel, |env.input| - offset, 2, |refs|
  {
    if |refs| == 0 then
      Some(FAILURE)
    else
      match RecognizeReference(a, env, refs[0], offset, fuel)
      case None => None
      case Some(FAILURE) => RecognizeGroup(a, env, id, refs[1..], offset, fuel)
      case Some(m) => Some(Choose(id, offset, m, |env.input|))
  }

  /** The group match whose only child is the winning alternative's match `m`, spanning its whole chain. */
  function Choose(id: Id, offset: nat, m: Match, n: nat): (r: Match)
    requires WellFormed(m, n) && m.offset == offset && offset <= ChainEnd(m)
    ensures WellFormed(r, n) && r.offset == offset && r.element == Some(id) && r.next == []
    ensures r.children == [m] && End(r) == ChainEnd(m)
  {
    Match(offset, ChainEnd(m) - offset, Some(id), [m], [])
  }

  /**
    Sequence over `refs` from `offset` on behalf of rule `id`: each reference
    matches where the previous one's chain ended, and the rule's children are
    the references' matches in order.
   */
  function RecognizeRule(a: Arena, env: Env, id: Id, refs: seq<RefId>, offset: nat, fuel: nat): (r: Option<Match>)
    requires a.Valid() && a.RefsIn(refs) && offset <= |env.input|
    ensures r.Some? && r.value.IsSuccess() ==>
      && WellFormed(r.value, |env.input|)
      && r.value.offset == offset && r.value.element == Some(id) && r.value.next == []
      && |r.value.children| == |refs|
    ensures |refs| == 0 ==> r.Some? && r.value.IsSuccess() && r.value.length == 0
    decreases fuel, |env.input| - offset, 2, |refs|
  {
    if |refs| == 0 then
      Some(Success(offset, 0, id))
    else
      match RecognizeReference(a, env, refs[0], offset, fuel)
      case None => None
      case Some(FAILURE) => Some(FAILURE)
      case Some(m) =>
        match RecognizeRule(a, env, id, refs[1..], ChainEnd(m), fuel)
        case None => None
        case Some(FAILURE) => Some(FAILURE)
        case Some(rest) => Some(Extend(id, offset, m, rest, |env.input|))
  }

  /** The rule match made of child `m` at `offset` followed by the rest of the sequence, `rest`. */
  function Extend(id: Id, offset: nat, m: Match, rest: Match, n: nat): (r: Match)
    requires WellFormed(m, n) && m.offset == offset && offset <= ChainEnd(m)
    requires WellFormed(rest, n) && rest.offset == ChainEnd(m) && rest.next == []
    requires |rest.children| == 0 ==> rest.length == 0
    ensures WellFormed(r, n) && r.offset == offset && r.element == Some(id) && r.next == []
    ensures r.children == [m] + rest.children && End(r) == End(rest)
  {
    var children := [m] + rest.children;
    assert children[1..] == rest.children;
    Match(offset, End(rest) - offset, Some(id), children, [])
  }

  /**
    Matches reference `rid` at `offset` according to its cardinality. The
    result is the first match, carrying any further repetitions in `next`;
    an optional reference whose element fails yields the empty match.
   */
  function RecognizeReference(a: Arena, env: Env, rid: RefId, offset: nat, fuel: nat): (r: Option<Match>)
    requires a.Valid() && rid < |a.references| && offset <= |env.input|
    ensures r.Some? && r.value.IsSuccess() ==>
      && WellFormed(r.value, |env.input|)
      && r.value.offset == offset
      && offset <= ChainEnd(r.value) <= |env.input|
    decreases fuel, |env.input| - offset, 1, 0
  {
    if fuel == 0 then
      None
    else
      var ref := a.references[rid];
      match RecognizeElement(a, env, ref.element, offset, fuel - 1)
      case None => None
      case Some(FAILURE) =>
        Some(if ref.cardinality.AcceptsAbsence() then Empty(offset) else FAILURE)
      case Some(m) =>
        if !ref.cardinality.Repeats() || m.length == 0 then
          Some(m)
        else
          match Repeat(a, env, ref.element, End(m), fuel)
          case None => None
          case Some(more) => Some(m.(next := more))
  }

  /**
    The repetitions of element `id` from `offset` on: matches laid end to end
    until the element fails, or until it matches without consuming anything
    (that match is kept, and the repetition stops there).
   */
  function Repeat(a: Arena, env: Env, id: Id, offset: nat, fuel: nat): (r: Option<seq<Match>>)
    requires a.Valid() && id < |a.elements| && offset <= |env.input|
    ensures r.Some? ==>
      && Consecutive(r.value, offset)
      && offset <= LastEnd(r.value, offset) <= |env.input|
      && forall i | 0 <= i < |r.value| :: WellFormed(r.value[i], |env.input|)
    decreases fuel, |env.input| - offset, 0, 0
  {
    if fuel == 0 then
      None
    else
      match RecognizeElement(a, env, id, offset, fuel - 1)
      case None => None
      case Some(FAILURE) => Some([])
      case Some(m) =>
        if m.length == 0 then
          Some([m])
        else
          match Repeat(a, env, id, End(m), fuel)
          case None => None
          case Some(more) =>
            assert ([m] + more)[1..] == more;
            Some([m] + more)
  }

  /** The outcome of parsing a whole input with a grammar. */
  datatype ParseResult =
    | NoAxiom          // the grammar has no axiom: a configuration error, not a match failure
    | OutOfFuel        // the fuel bound was reached before a verdict
    | Parsed(m: Match) // the axiom's match at offset 0, possibly FAILURE

  /**
    Matches the grammar's axiom against the input from offset 0. A success
    need not cover the whole input: trailing input is left for the caller to judge.
   */
  function Parse(g: Grammar, env: Env, fuel: nat): (r: ParseResult)
    requires g.Valid()
    ensures r.NoAxiom? <==> g.axiom.None?
    ensures r.Parsed? && r.m.IsSuccess() ==>
      WellFormed(r.m, |env.input|) && r.m.offset == 0 && Range(r.m).1 <= |env.input|
      && r.m.element == g.axiom
  {
    match g.axiom
    case None => NoAxiom
    case Some(axiom) =>
      match RecognizeElement(g.arena, env, axiom, 0, fuel)
      case None => OutOfFuel
      case Some(m) => Parsed(m)
  }

}
