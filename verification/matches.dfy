/**
  Match results.

  A match is either the distinguished `FAILURE` or a success recording where it
  starts, how many input units it covers, which element produced it, its child
  matches, and the further repetitions that follow it. The library keeps the
  repetitions of a reference as a list linked through `next`; here the head of
  such a chain holds the rest of the chain in `next`, and the links themselves
  have an empty `next`.
 */
module Matches {
  import opened Options
  import opened Elements

  // The status values a finished match can carry.
  const STATUS_MATCHED: char := 'Y'
  const STATUS_FAILED: char := 'X'

  datatype Match =
    | FAILURE
    | Match(offset: nat, length: nat, element: Option<Id>, children: seq<Match>, next: seq<Match>)
  {
    predicate IsSuccess() {
      Match?
    }
  }

  /** A success of `length` units produced by element `id` at `offset`. */
  function Success(offset: nat, length: nat, id: Id): Match {
    Match(offset, length, Some(id), [], [])
  }

  /** The empty success: zero units, produced by no element. */
  function Empty(offset: nat): Match {
    Match(offset, 0, None, [], [])
  }

  /** The status character a match carries. */
  function Status(m: Match): (c: char)
    ensures c == STATUS_MATCHED <==> m.IsSuccess()
    ensures c == STATUS_FAILED <==> !m.IsSuccess()
  {
    if m.IsSuccess() then STATUS_MATCHED else STATUS_FAILED
  }

  /** The offset just past the units a match covers by itself. */
  function End(m: Match): nat {
    if m.Match? then m.offset + m.length else 0
  }

  /** The end of the last of `ms`, or `from` when there is none. */
  function LastEnd(ms: seq<Match>, from: nat): nat {
    if |ms| == 0 then from else End(ms[|ms| - 1])
  }

  /** The offset just past a match and all the repetitions chained after it. */
  function ChainEnd(m: Match): nat {
    if m.Match? then LastEnd(m.next, End(m)) else 0
  }

  /** The end of the last chain among `ms`, or `from` when there is none. */
  function LastChainEnd(ms: seq<Match>, from: nat): nat {
    if |ms| == 0 then from else ChainEnd(ms[|ms| - 1])
  }

  /** `ms` are successes laid end to end starting at `from`, none with a chain of its own. */
  predicate Consecutive(ms: seq<Match>, from: nat)
    decreases |ms|
  {
    |ms| == 0 ||
    (ms[0].Match? && ms[0].offset == from && ms[0].next == [] && Consecutive(ms[1..], End(ms[0])))
  }

  /** The chains headed by `cs` are laid end to end and cover exactly `from` to `to`. */
  predicate Tiles(cs: seq<Match>, from: nat, to: nat)
    decreases |cs|
  {
    && |cs| > 0
    && cs[0].Match?
    && cs[0].offset == from
    && if |cs| == 1 then ChainEnd(cs[0]) == to else Tiles(cs[1..], ChainEnd(cs[0]), to)
  }

  /**
    A success that lies inside an input of `n` units: its span and its chain end
    within the input, its repetitions follow it end to end, and its children
    (when it has any) partition its span in order, all recursively.
   */
  predicate WellFormed(m: Match, n: nat)
    decreases m
  {
    && m.Match?
    && End(m) <= n
    && Consecutive(m.next, End(m))
    && ChainEnd(m) <= n
    && (|m.children| == 0 || Tiles(m.children, m.offset, End(m)))
    && (forall i | 0 <= i < |m.children| :: WellFormed(m.children[i], n))
    && (forall i | 0 <= i < |m.next| :: WellFormed(m.next[i], n))
  }

  /** The half-open span `(offset, offset + length)` of a success. */
  function Range(m: Match): (r: (nat, nat))
    requires m.IsSuccess()
  {
    (m.offset, m.offset + m.length)
  }

  /** A match is never both FAILURE and a success; `Success` and `Empty` are successes
      of exactly the requested length, and they lie in any input that contains their span. */
  lemma SuccessAndEmptyShape(offset: nat, length: nat, id: Id, n: nat)
    requires offset + length <= n
    ensures !FAILURE.IsSuccess() && Status(FAILURE) == STATUS_FAILED
    ensures Success(offset, length, id) != FAILURE && Range(Success(offset, length, id)) == (offset, offset + length)
    ensures WellFormed(Success(offset, length, id), n)
    ensures Empty(offset).IsSuccess() && Range(Empty(offset)) == (offset, offset)
    ensures WellFormed(Empty(offset), n)
  {
  }

  /** A well-formed match's range lies inside the input, and its chain never ends before it. */
  lemma RangeWithinInput(m: Match, n: nat)
    requires WellFormed(m, n)
    ensures Range(m).0 <= Range(m).1 <= n
    ensures Range(m).1 - Range(m).0 == m.length
    ensures Range(m).1 <= ChainEnd(m)
  {
    ConsecutiveEndsLater(m.next, End(m));
  }

  /** The end of a run of consecutive matches is never before its start. */
  lemma {:induction false} ConsecutiveEndsLater(ms: seq<Match>, from: nat)
    requires Consecutive(ms, from)
    ensures from <= LastEnd(ms, from)
    decreases |ms|
  {
    if |ms| > 0 {
      ConsecutiveEndsLater(ms[1..], End(ms[0]));
      if |ms| > 1 {
        assert ms[1..][|ms[1..]| - 1] == ms[|ms| - 1];
      }
    }
  }
}
