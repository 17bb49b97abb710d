/**
  What recognition promises, element kind by element kind and cardinality by
  cardinality, stated over all inputs, arenas and fuel bounds.
 */
module RecognitionLemmas {
  import opened Options
  import opened Elements
  import opened Matches
  import opened Recognition

  // ---------------------------------------------------------------------------
  // Zero-width elements
  // ---------------------------------------------------------------------------

  /** A procedure always succeeds without consuming input; a condition never consumes
      input either, but succeeds only when its callback agrees. */
  lemma ZeroWidthElements(a: Arena, env: Env, id: Id, offset: nat, fuel: nat)
    requires a.Valid() && id < |a.elements| && offset <= |env.input|
    ensures a.elements[id].kind.Procedure? ==>
      var r := RecognizeElement(a, env, id, offset, fuel);
      r.Some? && r.value.IsSuccess() && Range(r.value) == (offset, offset)
    ensures a.elements[id].kind.Condition? ==>
      var r := RecognizeElement(a, env, id, offset, fuel);
      && r.Some?
      && (r.value.IsSuccess() <==> env.condition(id, env.input, offset))
      && (r.value.IsSuccess() ==> Range(r.value) == (offset, offset))
  {
  }

  /** A word element's success covers exactly the word's text. */
  lemma WordElementCoversText(a: Arena, env: Env, id: Id, offset: nat, fuel: nat)
    requires a.Valid() && id < |a.elements| && offset <= |env.input|
    requires a.elements[id].kind.Word?
    ensures var r := RecognizeElement(a, env, id, offset, fuel);
      && r.Some?
      && (r.value.IsSuccess() <==>
            offset + |a.elements[id].kind.word| <= |env.input|
            && env.input[offset..offset + |a.elements[id].kind.word|] == a.elements[id].kind.word)
      && (r.value.IsSuccess() ==>
            Range(r.value).1 <= |env.input| && env.input[Range(r.value).0..Range(r.value).1] == a.elements[id].kind.word)
  {
    var w := a.elements[id].kind.word;
    if offset + |w| <= |env.input| && env.input[offset..offset + |w|] != w {
      var k :| 0 <= k < |w| && env.input[offset..offset + |w|][k] != w[k];
    }
  }

  // ---------------------------------------------------------------------------
  // Groups: ordered choice
  // ---------------------------------------------------------------------------

  /** Ordered choice over a list of references: the first success wins. */
  lemma {:induction false} GroupListFirstSuccess(a: Arena, env: Env, id: Id, refs: seq<RefId>, offset: nat, fuel: nat, i: nat)
    requires a.Valid() && a.RefsIn(refs) && offset <= |env.input| && i < |refs|
    requires forall j | 0 <= j < i :: RecognizeReference(a, env, refs[j], offset, fuel) == Some(FAILURE)
    requires RecognizeReference(a, env, refs[i], offset, fuel).Some?
    requires RecognizeReference(a, env, refs[i], offset, fuel).value.IsSuccess()
    ensures var m := RecognizeReference(a, env, refs[i], offset, fuel).value;
      RecognizeGroup(a, env, id, refs, offset, fuel) == Some(Choose(id, offset, m, |env.input|))
    decreases i
  {
    if i > 0 {
      assert RecognizeReference(a, env, refs[0], offset, fuel) == Some(FAILURE);
      assert refs[1..][i - 1] == refs[i];
      GroupListFirstSuccess(a, env, id, refs[1..], offset, fuel, i - 1);
    }
  }

  /**
    A group returns the match of its first child reference, in declaration
    order, that matches, whatever the later alternatives would have done.
   */
  lemma GroupReturnsFirstSuccess(a: Arena, env: Env, id: Id, offset: nat, fuel: nat, i: nat)
    requires a.Valid() && id < |a.elements| && offset <= |env.input|
    requires a.elements[id].kind.Group? && i < |a.elements[id].children|
    requires forall j | 0 <= j < i ::
      RecognizeReference(a, env, a.elements[id].children[j], offset, fuel) == Some(FAILURE)
    requires RecognizeReference(a, env, a.elements[id].children[i], offset, fuel).Some?
    requires RecognizeReference(a, env, a.elements[id].children[i], offset, fuel).value.IsSuccess()
    ensures var m := RecognizeReference(a, env, a.elements[id].children[i], offset, fuel).value;
      var r := RecognizeElement(a, env, id, offset, fuel);
      && r == Some(Choose(id, offset, m, |env.input|))
      && r.value.children == [m] && Range(r.value) == (offset, ChainEnd(m))
  {
    GroupListFirstSuccess(a, env, id, a.elements[id].children, offset, fuel, i);
  }

  /** Ordered choice over a list of references fails exactly when every reference fails. */
  lemma {:induction false} GroupListFailure(a: Arena, env: Env, id: Id, refs: seq<RefId>, offset: nat, fuel: nat)
    requires a.Valid() && a.RefsIn(refs) && offset <= |env.input|
    ensures RecognizeGroup(a, env, id, refs, offset, fuel) == Some(FAILURE) <==>
      forall j | 0 <= j < |refs| :: RecognizeReference(a, env, refs[j], offset, fuel) == Some(FAILURE)
    decreases |refs|
  {
    if |refs| > 0 {
      GroupListFailure(a, env, id, refs[1..], offset, fuel);
      if RecognizeReference(a, env, refs[0], offset, fuel) == Some(FAILURE) {
        forall j | 0 <= j < |refs[1..]|
          ensures refs[1..][j] == refs[j + 1]
        {
        }
      }
    }
  }

  /** A group fails if and only if every one of its child references fails. */
  lemma GroupFailsIffAllFail(a: Arena, env: Env, id: Id, offset: nat, fuel: nat)
    requires a.Valid() && id < |a.elements| && offset <= |env.input|
    requires a.elements[id].kind.Group?
    ensures RecognizeElement(a, env, id, offset, fuel) == Some(FAILURE) <==>
      forall j | 0 <= j < |a.elements[id].children| ::
        RecognizeReference(a, env, a.elements[id].children[j], offset, fuel) == Some(FAILURE)
  {
    GroupListFailure(a, env, id, a.elements[id].children, offset, fuel);
  }

  // ---------------------------------------------------------------------------
  // Rules: sequence
  // ---------------------------------------------------------------------------

  /**
    `ms` are the successful matches of `refs`, in order, each starting where
    the chain of the previous one ended, the first at `offset`.
   */
  ghost predicate Sequenced(a: Arena, env: Env, refs: seq<RefId>, offset: nat, ms: seq<Match>, fuel: nat)
    requires a.Valid() && a.RefsIn(refs) && offset <= |env.input|
    decreases |refs|
  {
    && |ms| == |refs|
    && (|refs| > 0 ==>
          && RecognizeReference(a, env, refs[0], offset, fuel) == Some(ms[0])
          && ms[0].IsSuccess()
          && Sequenced(a, env, refs[1..], ChainEnd(ms[0]), ms[1..], fuel))
  }

  /** A run of sequenced matches ends inside the input, never before it starts. */
  lemma {:induction false} SequencedEnd(a: Arena, env: Env, refs: seq<RefId>, offset: nat, ms: seq<Match>, fuel: nat)
    requires a.Valid() && a.RefsIn(refs) && offset <= |env.input|
    requires Sequenced(a, env, refs, offset, ms, fuel)
    ensures offset <= LastChainEnd(ms, offset) <= |env.input|
    decreases |refs|
  {
    if |refs| > 0 {
      SequencedEnd(a, env, refs[1..], ChainEnd(ms[0]), ms[1..], fuel);
      if |ms| > 1 {
        assert ms[1..][|ms[1..]| - 1] == ms[|ms| - 1];
      }
    }
  }

  /** A successful sequence over a list of references is made of the references' matches in order. */
  lemma {:induction false} RuleListSuccess(a: Arena, env: Env, id: Id, refs: seq<RefId>, offset: nat, fuel: nat)
    requires a.Valid() && a.RefsIn(refs) && offset <= |env.input|
    ensures var r := RecognizeRule(a, env, id, refs, offset, fuel);
      r.Some? && r.value.IsSuccess() ==>
        Sequenced(a, env, refs, offset, r.value.children, fuel) && End(r.value) == LastChainEnd(r.value.children, offset)
    decreases |refs|
  {
    var r := RecognizeRule(a, env, id, refs, offset, fuel);
    if |refs| > 0 && r.Some? && r.value.IsSuccess() {
      var m := RecognizeReference(a, env, refs[0], offset, fuel).value;
      var rest := RecognizeRule(a, env, id, refs[1..], ChainEnd(m), fuel).value;
      RuleListSuccess(a, env, id, refs[1..], ChainEnd(m), fuel);
      assert r.value.children == [m] + rest.children;
      assert r.value.children[1..] == rest.children;
      if |rest.children| > 0 {
        assert r.value.children[|r.value.children| - 1] == rest.children[|rest.children| - 1];
      }
    }
  }

  /**
    `m` is the match of rule `id` at `offset` whose children are `ms`: it
    starts at `offset`, ends where the last of `ms`'s chains ends, and has no
    chain of its own. Every field of `m` is fixed by this.
   */
  predicate IsRuleMatch(m: Match, id: Id, offset: nat, ms: seq<Match>) {
    && m.Match? && m.offset == offset && m.element == Some(id)
    && m.children == ms && m.next == [] && End(m) == LastChainEnd(ms, offset)
  }

  /** Matches of every reference in order, laid end to end, make the sequence succeed with them as children. */
  lemma {:induction false} SequencedRuleList(a: Arena, env: Env, id: Id, refs: seq<RefId>, offset: nat, ms: seq<Match>, fuel: nat)
    requires a.Valid() && a.RefsIn(refs) && offset <= |env.input|
    requires Sequenced(a, env, refs, offset, ms, fuel)
    ensures var r := RecognizeRule(a, env, id, refs, offset, fuel);
      r.Some? && IsRuleMatch(r.value, id, offset, ms)
    decreases |refs|
  {
    if |refs| > 0 {
      SequencedRuleList(a, env, id, refs[1..], ChainEnd(ms[0]), ms[1..], fuel);
      SequencedRuleStep(a, env, id, refs, offset, ms, fuel);
    }
  }

  /** A sequence whose first reference matched with `ms[0]` and whose other references gave the rule match over `ms[1..]`. */
  lemma SequencedRuleStep(a: Arena, env: Env, id: Id, refs: seq<RefId>, offset: nat, ms: seq<Match>, fuel: nat)
    requires a.Valid() && a.RefsIn(refs) && offset <= |env.input| && |refs| > 0 && |ms| > 0
    requires RecognizeReference(a, env, refs[0], offset, fuel) == Some(ms[0]) && ms[0].IsSuccess()
    requires var rest := RecognizeRule(a, env, id, refs[1..], ChainEnd(ms[0]), fuel);
      rest.Some? && IsRuleMatch(rest.value, id, ChainEnd(ms[0]), ms[1..])
    ensures var r := RecognizeRule(a, env, id, refs, offset, fuel);
      r.Some? && IsRuleMatch(r.value, id, offset, ms)
  {
    var rest := RecognizeRule(a, env, id, refs[1..], ChainEnd(ms[0]), fuel).value;
    RuleStepSucceeds(a, env, id, refs, offset, fuel, ms[0], rest);
    assert [ms[0]] + ms[1..] == ms;
    if |ms| > 1 {
      assert ms[1..][|ms[1..]| - 1] == ms[|ms| - 1];
    }
  }

  /** Once a prefix of the references has matched in sequence, a failure of the next one fails the whole sequence. */
  lemma {:induction false} RuleListFailure(a: Arena, env: Env, id: Id, refs: seq<RefId>, offset: nat, ms: seq<Match>, fuel: nat, i: nat)
    requires a.Valid() && a.RefsIn(refs) && offset <= |env.input| && i < |refs|
    requires Sequenced(a, env, refs[..i], offset, ms, fuel)
    requires LastChainEnd(ms, offset) <= |env.input|
    requires RecognizeReference(a, env, refs[i], LastChainEnd(ms, offset), fuel) == Some(FAILURE)
    ensures RecognizeRule(a, env, id, refs, offset, fuel) == Some(FAILURE)
    decreases i
  {
    if i > 0 {
      assert refs[..i][1..] == refs[1..][..i - 1];
      assert refs[1..][i - 1] == refs[i];
      SequencedEnd(a, env, refs[1..][..i - 1], ChainEnd(ms[0]), ms[1..], fuel);
      if |ms| > 1 {
        assert ms[1..][|ms[1..]| - 1] == ms[|ms| - 1];
      }
      RuleListFailure(a, env, id, refs[1..], ChainEnd(ms[0]), ms[1..], fuel, i - 1);
    }
  }

  /**
    A rule succeeds exactly when all its child references match consecutively
    and in order; its children are those matches and it ends where the last
    one's chain ends.
   */
  lemma RuleSucceedsIffSequenced(a: Arena, env: Env, id: Id, offset: nat, fuel: nat, ms: seq<Match>)
    requires a.Valid() && id < |a.elements| && offset <= |env.input|
    requires a.elements[id].kind.Rule?
    ensures var r := RecognizeElement(a, env, id, offset, fuel);
      r.Some? && r.value.IsSuccess() ==>
        Sequenced(a, env, a.elements[id].children, offset, r.value.children, fuel)
        && Range(r.value) == (offset, LastChainEnd(r.value.children, offset))
    ensures Sequenced(a, env, a.elements[id].children, offset, ms, fuel) ==>
      var r := RecognizeElement(a, env, id, offset, fuel);
      r.Some? && IsRuleMatch(r.value, id, offset, ms)
  {
    RuleListSuccess(a, env, id, a.elements[id].children, offset, fuel);
    if Sequenced(a, env, a.elements[id].children, offset, ms, fuel) {
      SequencedRuleList(a, env, id, a.elements[id].children, offset, ms, fuel);
    }
  }

  /** Any child failure, after the children before it matched in sequence, makes the whole rule fail. */
  lemma RuleFailsOnChildFailure(a: Arena, env: Env, id: Id, offset: nat, fuel: nat, ms: seq<Match>, i: nat)
    requires a.Valid() && id < |a.elements| && offset <= |env.input|
    requires a.elements[id].kind.Rule? && i < |a.elements[id].children|
    requires Sequenced(a, env, a.elements[id].children[..i], offset, ms, fuel)
    requires LastChainEnd(ms, offset) <= |env.input|
    requires RecognizeReference(a, env, a.elements[id].children[i], LastChainEnd(ms, offset), fuel) == Some(FAILURE)
    ensures RecognizeElement(a, env, id, offset, fuel) == Some(FAILURE)
  {
    RuleListFailure(a, env, id, a.elements[id].children, offset, ms, fuel, i);
  }

  // ---------------------------------------------------------------------------
  // References: cardinality
  // ---------------------------------------------------------------------------

  /**
    The reference-level outcome once its element has been tried: a failure is
    absorbed into the empty match by `?` and `*` and kept by `1` and `+`; a
    success is returned as is by `1` and `?`, so it has no further repetitions.
   */
  lemma ReferenceCardinality(a: Arena, env: Env, rid: RefId, offset: nat, fuel: nat)
    requires a.Valid() && rid < |a.references| && offset <= |env.input| && fuel > 0
    ensures var ref := a.references[rid];
      var e := RecognizeElement(a, env, ref.element, offset, fuel - 1);
      var r := RecognizeReference(a, env, rid, offset, fuel);
      && (e.None? ==> r.None?)
      && (e == Some(FAILURE) && (ref.cardinality.One? || ref.cardinality.Many?) ==> r == Some(FAILURE))
      && (e == Some(FAILURE) && (ref.cardinality.Optional? || ref.cardinality.ManyOptional?) ==>
            r == Some(Empty(offset)))
      && (e.Some? && e.value.IsSuccess() && (ref.cardinality.One? || ref.cardinality.Optional?) ==>
            r == e && r.value.next == [])
      && (e.Some? && e.value.IsSuccess() && ref.cardinality.Repeats() && r.Some? ==>
            r.value.IsSuccess() && r.value.(next := []) == e.value)
  {
  }

  /**
    `ms` are matches of element `id`, each at its own offset, and all but
    possibly the last consume input.
   */
  ghost predicate Repetitions(a: Arena, env: Env, id: Id, ms: seq<Match>, fuel: nat)
    requires a.Valid() && id < |a.elements|
    decreases |ms|
  {
    |ms| > 0 ==>
      && ms[0].IsSuccess()
      && ms[0].offset <= |env.input|
      && RecognizeElement(a, env, id, ms[0].offset, fuel) == Some(ms[0])
      && (|ms| > 1 ==> ms[0].length > 0)
      && Repetitions(a, env, id, ms[1..], fuel)
  }

  /** Repetition stopped for a reason: the last repetition consumed nothing, or the element fails where the run ends. */
  ghost predicate RepetitionStopped(a: Arena, env: Env, id: Id, ms: seq<Match>, from: nat, fuel: nat)
    requires a.Valid() && id < |a.elements|
  {
    || (|ms| > 0 && ms[|ms| - 1].IsSuccess() && ms[|ms| - 1].length == 0)
    || (LastEnd(ms, from) <= |env.input| && RecognizeElement(a, env, id, LastEnd(ms, from), fuel) == Some(FAILURE))
  }

  /** The repetitions collected from `offset` are the element's own matches, and collection stops only for a reason. */
  lemma {:induction false} RepeatIsMaximal(a: Arena, env: Env, id: Id, offset: nat, fuel: nat)
    requires a.Valid() && id < |a.elements| && offset <= |env.input|
    ensures var r := Repeat(a, env, id, offset, fuel);
      r.Some? ==>
        fuel > 0
        && Repetitions(a, env, id, r.value, fuel - 1)
        && RepetitionStopped(a, env, id, r.value, offset, fuel - 1)
    decreases |env.input| - offset
  {
    if fuel > 0 {
      var e := RecognizeElement(a, env, id, offset, fuel - 1);
      if e.Some? && e.value.IsSuccess() && e.value.length > 0 {
        RepeatIsMaximal(a, env, id, End(e.value), fuel);
        RepeatConsuming(a, env, id, offset, fuel);
      } else {
        RepeatNotConsuming(a, env, id, offset, fuel);
      }
    }
  }

  /** The step of `RepeatIsMaximal` where the element fails, or matches without consuming anything. */
  lemma RepeatNotConsuming(a: Arena, env: Env, id: Id, offset: nat, fuel: nat)
    requires a.Valid() && id < |a.elements| && offset <= |env.input| && fuel > 0
    requires var e := RecognizeElement(a, env, id, offset, fuel - 1);
      !(e.Some? && e.value.IsSuccess() && e.value.length > 0)
    ensures var r := Repeat(a, env, id, offset, fuel);
      r.Some? ==>
        && Repetitions(a, env, id, r.value, fuel - 1)
        && RepetitionStopped(a, env, id, r.value, offset, fuel - 1)
  {
    var e := RecognizeElement(a, env, id, offset, fuel - 1);
    if e.Some? && e.value.IsSuccess() {
      RepeatFromElement(a, env, id, offset, fuel);
      RepetitionsSingle(a, env, id, e.value, offset, fuel - 1);
    }
  }

  /** The step of `RepeatIsMaximal` where the element consumes input: a stopped run from where it ends extends to one from `offset`. */
  lemma RepeatConsuming(a: Arena, env: Env, id: Id, offset: nat, fuel: nat)
    requires a.Valid() && id < |a.elements| && offset <= |env.input| && fuel > 0
    requires var e := RecognizeElement(a, env, id, offset, fuel - 1);
      e.Some? && e.value.IsSuccess() && e.value.length > 0
    requires var m := RecognizeElement(a, env, id, offset, fuel - 1).value;
      var r := Repeat(a, env, id, End(m), fuel);
      r.Some? ==>
        && Repetitions(a, env, id, r.value, fuel - 1)
        && RepetitionStopped(a, env, id, r.value, End(m), fuel - 1)
    ensures var r := Repeat(a, env, id, offset, fuel);
      r.Some? ==>
        && Repetitions(a, env, id, r.value, fuel - 1)
        && RepetitionStopped(a, env, id, r.value, offset, fuel - 1)
  {
    var m := RecognizeElement(a, env, id, offset, fuel - 1).value;
    RepeatFromElement(a, env, id, offset, fuel);
    var more := Repeat(a, env, id, End(m), fuel);
    if more.Some? {
      RepetitionsCons(a, env, id, m, more.value, offset, fuel - 1);
    }
  }

  /** A match of the element at `offset` that consumed nothing is a stopped run on its own. */
  lemma RepetitionsSingle(a: Arena, env: Env, id: Id, m: Match, offset: nat, fuel: nat)
    requires a.Valid() && id < |a.elements| && offset <= |env.input|
    requires m.IsSuccess() && m.offset == offset && m.length == 0
    requires RecognizeElement(a, env, id, offset, fuel) == Some(m)
    ensures Repetitions(a, env, id, [m], fuel)
    ensures RepetitionStopped(a, env, id, [m], offset, fuel)
  {
  }

  /** A consuming match of the element at `offset`, followed by a stopped run of repetitions from where it ends, is a stopped run from `offset`. */
  lemma RepetitionsCons(a: Arena, env: Env, id: Id, m: Match, more: seq<Match>, offset: nat, fuel: nat)
    requires a.Valid() && id < |a.elements| && offset <= |env.input|
    requires m.IsSuccess() && m.offset == offset && m.length > 0
    requires RecognizeElement(a, env, id, offset, fuel) == Some(m)
    requires Repetitions(a, env, id, more, fuel) && RepetitionStopped(a, env, id, more, End(m), fuel)
    ensures Repetitions(a, env, id, [m] + more, fuel)
    ensures RepetitionStopped(a, env, id, [m] + more, offset, fuel)
  {
    var ms := [m] + more;
    assert ms[1..] == more;
    if |more| > 0 {
      assert ms[|ms| - 1] == more[|more| - 1];
    }
  }

  /**
    A `+` or `*` reference whose element matched yields a chain of the
    element's own matches, laid end to end from the offset; every link but
    possibly the last consumes input, and the chain stops only where the
    element fails or after a link that consumed nothing.
   */
  lemma ReferenceRepetition(a: Arena, env: Env, rid: RefId, offset: nat, fuel: nat)
    requires a.Valid() && rid < |a.references| && offset <= |env.input|
    requires a.references[rid].cardinality.Repeats()
    ensures var r := RecognizeReference(a, env, rid, offset, fuel);
      r.Some? && r.value.IsSuccess() && r.value.element.Some? ==>
        var chain := [r.value.(next := [])] + r.value.next;
        && fuel > 0
        && Consecutive(chain, offset)
        && Repetitions(a, env, a.references[rid].element, chain, fuel - 1)
        && RepetitionStopped(a, env, a.references[rid].element, chain, offset, fuel - 1)
  {
    var r := RecognizeReference(a, env, rid, offset, fuel);
    if r.Some? && r.value.IsSuccess() && r.value.element.Some? {
      var id := a.references[rid].element;
      var m := RecognizeElement(a, env, id, offset, fuel - 1).value;
      var chain := [r.value.(next := [])] + r.value.next;
      assert r.value.(next := []) == m;
      RepeatFromElement(a, env, id, offset, fuel);
      if m.length > 0 {
        var more := Repeat(a, env, id, End(m), fuel);
        assert more.Some? && r.value.next == more.value;
        assert chain == [m] + more.value;
      } else {
        assert chain == [m];
      }
      assert Repeat(a, env, id, offset, fuel) == Some(chain);
      RepeatIsMaximal(a, env, id, offset, fuel);
    }
  }

  /** After a success of the element at `offset`, the repetitions from `offset` are that success followed by the ones after it. */
  lemma RepeatFromElement(a: Arena, env: Env, id: Id, offset: nat, fuel: nat)
    requires a.Valid() && id < |a.elements| && offset <= |env.input| && fuel > 0
    requires RecognizeElement(a, env, id, offset, fuel - 1).Some?
    requires RecognizeElement(a, env, id, offset, fuel - 1).value.IsSuccess()
    ensures var m := RecognizeElement(a, env, id, offset, fuel - 1).value;
      && (m.length == 0 ==> Repeat(a, env, id, offset, fuel) == Some([m]))
      && (m.length > 0 ==>
            Repeat(a, env, id, offset, fuel) ==
              match Repeat(a, env, id, End(m), fuel)
              case None => None
              case Some(more) => Some([m] + more))
  {
  }

  // ---------------------------------------------------------------------------
  // Fuel
  // ---------------------------------------------------------------------------

  /** A verdict reached with some fuel is the verdict reached with any larger fuel. */
  lemma {:induction false} ElementFuelMonotone(a: Arena, env: Env, id: Id, offset: nat, fuel: nat, more: nat)
    requires a.Valid() && id < |a.elements| && offset <= |env.input| && fuel <= more
    requires RecognizeElement(a, env, id, offset, fuel).Some?
    ensures RecognizeElement(a, env, id, offset, more) == RecognizeElement(a, env, id, offset, fuel)
    decreases fuel, |env.input| - offset, 3, 0, 0
  {
    var e := a.elements[id];
    match e.kind
    case Group => GroupFuelMonotone(a, env, id, e.children, offset, fuel, more);
    case Rule => RuleFuelMonotone(a, env, id, e.children, offset, fuel, more);
    case _ =>
  }

  lemma {:induction false} GroupFuelMonotone(a: Arena, env: Env, id: Id, refs: seq<RefId>, offset: nat, fuel: nat, more: nat)
    requires a.Valid() && a.RefsIn(refs) && offset <= |env.input| && fuel <= more
    requires RecognizeGroup(a, env, id, refs, offset, fuel).Some?
    ensures RecognizeGroup(a, env, id, refs, offset, more) == RecognizeGroup(a, env, id, refs, offset, fuel)
    decreases fuel, |env.input| - offset, 2, |refs|, 0
  {
    if |refs| > 0 {
      var r := RecognizeReference(a, env, refs[0], offset, fuel);
      assert r.Some?;
      ReferenceFuelMonotone(a, env, refs[0], offset, fuel, more);
      assert RecognizeReference(a, env, refs[0], offset, more) == r;
      if r.value == FAILURE {
        assert RecognizeGroup(a, env, id, refs, offset, fuel) == RecognizeGroup(a, env, id, refs[1..], offset, fuel);
        GroupFuelMonotone(a, env, id, refs[1..], offset, fuel, more);
        assert RecognizeGroup(a, env, id, refs, offset, more) == RecognizeGroup(a, env, id, refs[1..], offset, more);
      } else {
        var m := r.value;
        assert RecognizeGroup(a, env, id, refs, offset, fuel) == Some(Choose(id, offset, m, |env.input|));
      }
    }
  }

  lemma {:induction false} RuleFuelMonotone(a: Arena, env: Env, id: Id, refs: seq<RefId>, offset: nat, fuel: nat, more: nat)
    requires a.Valid() && a.RefsIn(refs) && offset <= |env.input| && fuel <= more
    requires RecognizeRule(a, env, id, refs, offset, fuel).Some?
    ensures RecognizeRule(a, env, id, refs, offset, more) == RecognizeRule(a, env, id, refs, offset, fuel)
    decreases fuel, |env.input| - offset, 2, |refs|, 1
  {
    if |refs| > 0 {
      var r := RecognizeReference(a, env, refs[0], offset, fuel);
      assert r.Some?;
      ReferenceFuelMonotone(a, env, refs[0], offset, fuel, more);
      assert RecognizeReference(a, env, refs[0], offset, more) == r;
      if r.value.IsSuccess() {
        RuleTailFuelMonotone(a, env, id, refs, offset, r.value, fuel, more);
      }
    }
  }

  /** The step of `RuleFuelMonotone` after the first reference has matched with `m` under both bounds. */
  lemma {:induction false} RuleTailFuelMonotone(a: Arena, env: Env, id: Id, refs: seq<RefId>, offset: nat, m: Match, fuel: nat, more: nat)
    requires a.Valid() && a.RefsIn(refs) && offset <= |env.input| && fuel <= more && |refs| > 0
    requires RecognizeReference(a, env, refs[0], offset, fuel) == Some(m)
    requires RecognizeReference(a, env, refs[0], offset, more) == Some(m)
    requires m.IsSuccess()
    requires RecognizeRule(a, env, id, refs, offset, fuel).Some?
    ensures RecognizeRule(a, env, id, refs, offset, more) == RecognizeRule(a, env, id, refs, offset, fuel)
    decreases fuel, |env.input| - offset, 2, |refs|, 0
  {
    var rest := RecognizeRule(a, env, id, refs[1..], ChainEnd(m), fuel);
    assert rest.Some?;
    RuleFuelMonotone(a, env, id, refs[1..], ChainEnd(m), fuel, more);
    if rest.value == FAILURE {
      RuleStepFails(a, env, id, refs, offset, fuel, m);
      RuleStepFails(a, env, id, refs, offset, more, m);
    } else {
      RuleStepSucceeds(a, env, id, refs, offset, fuel, m, rest.value);
      RuleStepSucceeds(a, env, id, refs, offset, more, m, rest.value);
    }
  }

  /** One step of a sequence that fails: the first reference matched with `m` and the rest failed. */
  lemma RuleStepFails(a: Arena, env: Env, id: Id, refs: seq<RefId>, offset: nat, fuel: nat, m: Match)
    requires a.Valid() && a.RefsIn(refs) && offset <= |env.input| && |refs| > 0
    requires RecognizeReference(a, env, refs[0], offset, fuel) == Some(m) && m.IsSuccess()
    requires RecognizeRule(a, env, id, refs[1..], ChainEnd(m), fuel) == Some(FAILURE)
    ensures RecognizeRule(a, env, id, refs, offset, fuel) == Some(FAILURE)
  {
  }

  /** One step of a sequence that succeeds: the first reference matched with `m` and the rest with `rest`. */
  lemma RuleStepSucceeds(a: Arena, env: Env, id: Id, refs: seq<RefId>, offset: nat, fuel: nat, m: Match, rest: Match)
    requires a.Valid() && a.RefsIn(refs) && offset <= |env.input| && |refs| > 0
    requires RecognizeReference(a, env, refs[0], offset, fuel) == Some(m) && m.IsSuccess()
    requires RecognizeRule(a, env, id, refs[1..], ChainEnd(m), fuel) == Some(rest) && rest.IsSuccess()
    ensures RecognizeRule(a, env, id, refs, offset, fuel) == Some(Extend(id, offset, m, rest, |env.input|))
  {
  }

  lemma {:induction false} ReferenceFuelMonotone(a: Arena, env: Env, rid: RefId, offset: nat, fuel: nat, more: nat)
    requires a.Valid() && rid < |a.references| && offset <= |env.input| && fuel <= more
    requires RecognizeReference(a, env, rid, offset, fuel).Some?
    ensures RecognizeReference(a, env, rid, offset, more) == RecognizeReference(a, env, rid, offset, fuel)
    decreases fuel, |env.input| - offset, 1, 0, 0
  {
    ReferenceVerdictNeeds(a, env, rid, offset, fuel);
    var id := a.references[rid].element;
    ElementFuelMonotone(a, env, id, offset, fuel - 1, more - 1);
    var m := RecognizeElement(a, env, id, offset, fuel - 1).value;
    if m.IsSuccess() && a.references[rid].cardinality.Repeats() && m.length > 0 {
      RepeatFuelMonotone(a, env, id, End(m), fuel, more);
    }
    ReferenceStepAgrees(a, env, rid, offset, fuel, more);
  }

  /** A reference reaches a verdict only if its element does, and, when it repeats, so do the repetitions after the element's match. */
  lemma ReferenceVerdictNeeds(a: Arena, env: Env, rid: RefId, offset: nat, fuel: nat)
    requires a.Valid() && rid < |a.references| && offset <= |env.input|
    requires RecognizeReference(a, env, rid, offset, fuel).Some?
    ensures fuel > 0
    ensures var id := a.references[rid].element;
      var e := RecognizeElement(a, env, id, offset, fuel - 1);
      && e.Some?
      && (e.value.IsSuccess() && a.references[rid].cardinality.Repeats() && e.value.length > 0 ==>
            Repeat(a, env, id, End(e.value), fuel).Some?)
  {
  }

  /** A reference's verdicts under two bounds agree once its element's verdicts, and the repetitions after them, agree. */
  lemma ReferenceStepAgrees(a: Arena, env: Env, rid: RefId, offset: nat, fuel: nat, more: nat)
    requires a.Valid() && rid < |a.references| && offset <= |env.input| && 0 < fuel <= more
    requires var id := a.references[rid].element;
      && RecognizeElement(a, env, id, offset, fuel - 1).Some?
      && RecognizeElement(a, env, id, offset, more - 1) == RecognizeElement(a, env, id, offset, fuel - 1)
    requires var id := a.references[rid].element;
      var m := RecognizeElement(a, env, id, offset, fuel - 1).value;
      m.IsSuccess() && a.references[rid].cardinality.Repeats() && m.length > 0 ==>
        Repeat(a, env, id, End(m), more) == Repeat(a, env, id, End(m), fuel)
    ensures RecognizeReference(a, env, rid, offset, more) == RecognizeReference(a, env, rid, offset, fuel)
  {
  }

  lemma {:induction false} RepeatFuelMonotone(a: Arena, env: Env, id: Id, offset: nat, fuel: nat, more: nat)
    requires a.Valid() && id < |a.elements| && offset <= |env.input| && fuel <= more
    requires Repeat(a, env, id, offset, fuel).Some?
    ensures Repeat(a, env, id, offset, more) == Repeat(a, env, id, offset, fuel)
    decreases fuel, |env.input| - offset, 0, 0, 0
  {
    ElementFuelMonotone(a, env, id, offset, fuel - 1, more - 1);
    var m := RecognizeElement(a, env, id, offset, fuel - 1).value;
    if m.IsSuccess() && m.length > 0 {
      RepeatFuelMonotone(a, env, id, End(m), fuel, more);
    }
  }

  /** A verdict of `Parse` reached with some fuel is the verdict reached with any larger fuel. */
  lemma ParseFuelMonotone(g: Grammar, env: Env, fuel: nat, more: nat)
    requires g.Valid() && fuel <= more
    requires !Parse(g, env, fuel).OutOfFuel?
    ensures Parse(g, env, more) == Parse(g, env, fuel)
  {
    if g.axiom.Some? {
      ElementFuelMonotone(g.arena, env, g.axiom.value, 0, fuel, more);
    }
  }
}
