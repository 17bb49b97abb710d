# libparsing — a Dafny model of the recognition engine and the Python grammar builders

libparsing is a parsing-expression-grammar (PEG) library. A grammar is a graph of
*parsing elements*:

- **words** match a fixed string;
- **tokens** match a regular expression;
- **groups** are an ordered choice;
- **rules** are a sequence;
- **procedures** always succeed;
- **conditions** succeed when a callback agrees.

A composite element does not hold its sub-elements directly. It holds **references**.
A reference wraps an element and gives it a cardinality (`1`, `?`, `*`, `+`) and an
optional name. Recognising an element at an offset of the input yields a **match**:
either the `FAILURE` singleton, or a success with an offset, a length, the element
that produced it, child matches, and, for repeated references, a chain of further
matches in `next`.

The model has two halves.

- **Recognition** (`recognition.dfy`, `recognition_lemmas.dfy`). The behaviour that
  `src/parsing.h` declares for `Word_recognize`, `Token_recognize`, `Group_recognize`,
  `Rule_recognize`, `Reference_recognize`, `Procedure_recognize` and
  `Condition_recognize`. These are written as one family of mutually recursive pure
  functions over an in-memory input, together with `Parse`, which matches the axiom
  from offset 0.
- **Construction** (`construction.dfy`, `grammars.dfy`). The Python binding's fluent
  API in `src/parsing.py`:
  - `Reference` and its cardinality and naming setters;
  - `ParsingElement.add`/`set`/`setName`/`optional`/`zeroOrMore`/`oneOrMore`/`_as`;
  - the `Symbols` table;
  - `Grammar`'s `word`/`token`/`procedure`/`condition`/`group`/`rule` builders and
    their anonymous `a…` variants, `axiom` and `skip`.

Modelling choices:

- **Arena.** Grammars are cyclic (`Expression` lists itself among its own
  children, `src/parsing.py:452-453`). So elements and references live in an
  `Arena`, indexed in creation order, and children are reference indices. An
  arena index stands for object identity only; it is not the library's `id` field.
- **Shared objects.** The Python objects are mutable and shared. So every setter
  returns the new arena together with the same identity it was given, which is what
  `return self` means in the binding.
- **Outside code as parameters.** Tokens call a regular-expression engine, and
  conditions call a user callback. Both are parameters of the recognition
  environment `Env`:
  - `token(expr, rest)` is the length of the prefix of `rest` that `expr` matches,
    anchored at its start; an answer longer than `rest` counts as no match;
  - `condition(id, input, offset)` is the callback's verdict.
- **Fuel.** Recognition carries a fuel bound, spent each time a reference hands over
  to its element. `None` means the bound was reached before a verdict. The
  `*FuelMonotone` lemmas show that a verdict, once reached, is the same for every
  larger bound.
- **Repetition.** The comment on `Reference_recognize` (`src/parsing.h:487-492`)
  says a repeated reference (`+`, `*`) returns a match whose `next` points to the
  next match, a linked chain. The model flattens that chain, which is its own
  representation: the head match's `next` holds every later repetition in order,
  and each of those links has an empty `next`. The header does not say what
  happens after a repetition that consumes nothing. The model keeps that
  zero-width match and stops, which makes repetition terminate.
- **Children.** In the library a `Match` has a single `child` pointer, and siblings
  are linked through `next` (`src/parsing.h:249-251`). The model gives every
  success a sequence of children instead; this representation is the model's own.
  A group's match is a node whose one child is the winning reference's match: the
  header says a group "will return the first matching reference's match"
  (`src/parsing.h:498`), and the model wraps that match in a node attributed to the
  group. A rule's match has one child per child reference, in order.
- **Empty match.** `Match_Empty` (`src/parsing.h:292-294`) takes no offset. The
  model places the empty match at the offset where it is produced.
- **Adding to terminals.** The binding's `add` ensures a reference for every
  argument and passes it to `ParsingElement_add` (`src/parsing.py:207-211`). The
  header says that call is "only effective for composite parsing elements"
  (`src/parsing.h:338-341`). Groups and rules are the elements the header calls
  composite (`src/parsing.h:498`, `src/parsing.h:512`). So in the model, `add` on a
  group or rule appends children, and `add` on any other element leaves its
  children unchanged. The references created for element arguments are still
  created. The header's example there also names `Token`; the model treats tokens
  as terminals, as recognition does.
- **Input units.** One `char` of the model's input is one `iterated_t` of the
  library, which is a byte by default (`src/parsing.h:60-72`). Offsets and lengths
  of matches therefore count bytes, as `Match` does (`src/parsing.h:245-246`), not
  Unicode characters.

## Model

| member | source | states |
|---|---|---|
| Elements.CardinalityCharRoundTrip | src/parsing.h:450-458 | each cardinality is encoded by its own character (`'1'`, `'?'`, `'*'`, `'+'`) and that character decodes back to it |
| Elements.CardinalityOfInverse | src/parsing.py:70-73 | exactly the four characters `1 ? + *` decode to a cardinality, and a decoded cardinality encodes back to the character it came from |
| Matches.SuccessAndEmptyShape | src/parsing.h:285-298 | `FAILURE` is not a success and has the failed status; `Match_Success` of a length at an offset is a well-formed success spanning exactly that length; the empty match is a zero-width well-formed success |
| Matches.RangeWithinInput | src/parsing.py:139-141 | `range()` of a well-formed match is `(offset, offset + length)`, lies inside the input, and ends no later than the match's repetition chain |
| Recognition.RecognizeWord | src/parsing.h:358-379 | a word matches exactly when every character of the word equals the input character at the same distance from the offset; a success starts at the offset, has the word's length and no children |
| Recognition.RecognizeToken | src/parsing.h:381-416 | a token matches exactly when its regular expression, applied to the input from the offset on, matches a prefix that fits in the input; the success starts at the offset and its length is that prefix's |
| Recognition.RecognizeElement | src/parsing.h:221-252 | every success of any element is well formed (children tile its span in order, all inside the input), starts at the requested offset, is attributed to the element and has no `next` chain |
| Recognition.RecognizeGroup | src/parsing.h:494-506 | a group's success has exactly one child and is well formed, at the requested offset |
| Recognition.RecognizeRule | src/parsing.h:508-520 | a rule's success has one child per child reference and is well formed; a rule with no children always succeeds, with zero length at the offset |
| Recognition.RecognizeReference | src/parsing.h:487-492 | a reference's success starts at the offset, is well formed, and its repetition chain ends inside the input and not before the offset |
| Recognition.Repeat | src/parsing.h:487-492 | the collected repetitions are laid end to end from the offset, each well formed, ending inside the input |
| Recognition.Parse | src/parsing.h:560-570 | parsing reports a missing axiom exactly when the grammar has none; a successful parse is the axiom's well-formed match starting at offset 0 and ending inside the input |
| RecognitionLemmas.ZeroWidthElements | src/parsing.h:522-558 | a procedure always succeeds with a zero-width match; a condition succeeds exactly when its callback agrees, also zero-width |
| RecognitionLemmas.WordElementCoversText | src/parsing.h:358-364 | a word element succeeds exactly when the input at the offset begins with the word, and the text its range covers is the word |
| RecognitionLemmas.GroupReturnsFirstSuccess | src/parsing.h:494-506 | when every earlier alternative fails and alternative `i` matches, the group's match is alternative `i`'s match as its only child, spanning that child's whole chain, whatever later alternatives would do |
| RecognitionLemmas.GroupFailsIffAllFail | src/parsing.h:494-506 | a group fails if and only if every one of its child references fails at the offset |
| RecognitionLemmas.RuleSucceedsIffSequenced | src/parsing.h:508-520 | a rule's success has as children its references' matches, each starting where the previous chain ended, and ends where the last chain ends; conversely such a sequence of matches makes the rule succeed with exactly those children |
| RecognitionLemmas.RuleFailsOnChildFailure | src/parsing.h:508-520 | when the first `i` children matched in sequence and child `i` fails where they ended, the whole rule fails |
| RecognitionLemmas.ReferenceCardinality | src/parsing.h:487-492 | on element failure `1`/`+` fail and `?`/`*` yield the empty match; on element success `1`/`?` return it with no `next`, and `+`/`*` return it as the chain's head |
| RecognitionLemmas.ReferenceRepetition | src/parsing.h:487-492 | a `+`/`*` reference's chain is the element's own matches laid end to end from the offset, every link but the last consumes input, and the chain stops only where the element fails or after a zero-width link |
| RecognitionLemmas.ElementFuelMonotone | src/parsing.h:341-345 | a recognition verdict reached within a nesting bound is unchanged under any larger bound |
| RecognitionLemmas.ReferenceFuelMonotone | src/parsing.h:487-492 | a reference's verdict reached within a nesting bound is unchanged under any larger bound |
| RecognitionLemmas.RepeatIsMaximal | src/parsing.h:487-492 | each collected repetition is the element's own match at the offset where it stands, all but the last consume input, and collection stops only where the element fails or after a zero-width match |
| RecognitionLemmas.GroupFuelMonotone | src/parsing.h:494-506 | an ordered choice's verdict reached within a nesting bound is unchanged under any larger bound |
| RecognitionLemmas.RuleFuelMonotone | src/parsing.h:508-520 | a sequence's verdict reached within a nesting bound is unchanged under any larger bound |
| RecognitionLemmas.RepeatFuelMonotone | src/parsing.h:487-492 | the repetitions collected within a nesting bound are the same under any larger bound |
| RecognitionLemmas.ParseFuelMonotone | src/parsing.h:560-570 | a parse that reached a verdict (a match, a failure, or no axiom) within a nesting bound reaches the same verdict under any larger bound |
| Construction.NewReference | src/parsing.py:155-159 | a new reference wraps exactly the given element, with cardinality `'1'` and no name, and no existing element or reference changes |
| Construction.Ensure | src/parsing.h:465-467 | a reference argument is returned as it is; an element argument gets a fresh `'1'` unnamed reference to it, and nothing existing changes |
| Construction.SetCardinality | src/parsing.h:477-479 | sets one reference's cardinality, returns that reference, keeps its element and name, and changes nothing else |
| Construction.ReferenceOne | src/parsing.py:171-173 | the reference's cardinality becomes `'1'`; its element and name and every other reference are unchanged; the same reference is returned |
| Construction.ReferenceOptional | src/parsing.py:175-177 | the reference's cardinality becomes `'?'`; nothing else changes; the same reference is returned |
| Construction.ReferenceZeroOrMore | src/parsing.py:179-181 | the reference's cardinality becomes `'*'`; nothing else changes; the same reference is returned |
| Construction.ReferenceOneOrMore | src/parsing.py:183-185 | the reference's cardinality becomes `'+'`; nothing else changes; the same reference is returned |
| Construction.ReferenceAs | src/parsing.py:167-169 | the reference gets the name, keeps its cardinality and element; nothing else changes; the same reference is returned |
| Construction.NamingCommutesWithCardinality | src/parsing.py:167-185 | naming a reference and setting its cardinality give the same reference in either order, with both settings applied |
| Construction.LastCardinalityWins | src/parsing.py:171-185 | setting a cardinality twice is the same as setting only the second one |
| Construction.NewElement | src/parsing.h:329-333 | a new element gets an identity larger than every existing one, no name and no children; nothing existing changes |
| Construction.SetName | src/parsing.py:219-221 | only the element's name changes, and the same element is returned |
| Construction.AppendChild | src/parsing.h:338-341 | on a group or rule the reference is appended to the element's children; on a terminal nothing changes; no other element and no reference changes |
| Construction.Add | src/parsing.py:207-211 | a group or rule keeps its old children and gains one child per argument, in argument order: the argument itself when it is a reference, a fresh `'1'` reference to it when it is an element; a terminal keeps its children; existing references and other elements are unchanged |
| Construction.AddConcatenates | src/parsing.py:207-224 | `add(xs)` followed by `add(ys)`, or `set`, leaves the same arena as a single `add(xs + ys)` |
| Construction.ElementOptional | src/parsing.py:229-230 | a fresh reference to the element with cardinality `'?'`, no name, and no change to existing elements or references |
| Construction.ElementZeroOrMore | src/parsing.py:232-233 | a fresh reference to the element with cardinality `'*'`, no name, and no change to existing elements or references |
| Construction.ElementOneOrMore | src/parsing.py:235-236 | a fresh reference to the element with cardinality `'+'`, no name, and no change to existing elements or references |
| Construction.ElementAs | src/parsing.py:226-227 | a fresh reference to the element named as given, with cardinality `'1'`, and no change to existing elements or references |
| Construction.NewComposite | src/parsing.py:272-294 | a new element whose children are, for a group or rule, the references its arguments stand for, in order, and none for a terminal; existing elements and references are unchanged |
| Grammars.Store | src/parsing.py:338-340 | storing binds the key to the value and hands the value back; every other key keeps its binding |
| Grammars.LookupAfterStores | src/parsing.py:336-343 | after a run of stores, a name reads back the value most recently stored under it, and a name the run never stored reads back what it did before |
| Grammars.StoreThenLookup | src/parsing.py:336-343 | reading a stored name back gives the stored element, and other names are undisturbed |
| Grammars.NewGrammar | src/parsing.py:353-356 | a new grammar has the given name, no symbols, no axiom and no skip |
| Grammars.DefineNamed | src/parsing.py:358-362 | a named builder adds one new element of the requested kind, with the name and the argument references as children, and binds the name to it; axiom, skip and older elements are unchanged |
| Grammars.DefineAnonymous | src/parsing.py:376-377 | an anonymous builder adds one unnamed element of the requested kind and leaves the symbol table unchanged |
| Grammars.Word | src/parsing.py:358-362 | a new word element with the given text, named and bound in the symbol table under its name |
| Grammars.Token | src/parsing.py:364-368 | a new token element with the given expression, named and bound under its name |
| Grammars.Procedure | src/parsing.py:370-374 | a new procedure element, named and bound under its name |
| Grammars.AProcedure | src/parsing.py:376-377 | a new unnamed procedure element; the symbol table is unchanged |
| Grammars.Condition | src/parsing.py:379-383 | a new condition element, named and bound under its name |
| Grammars.ACondition | src/parsing.py:385-386 | a new unnamed condition element; the symbol table is unchanged |
| Grammars.Group | src/parsing.py:388-392 | a new group over the arguments' references, named and bound under its name |
| Grammars.AGroup | src/parsing.py:394-395 | a new unnamed group over the arguments' references; the symbol table is unchanged |
| Grammars.Rule | src/parsing.py:397-401 | a new rule over the arguments' references, named and bound under its name |
| Grammars.ARule | src/parsing.py:403-404 | a new unnamed rule over the arguments' references; the symbol table is unchanged |
| Grammars.Axiom | src/parsing.py:410-416 | the axiom becomes the element, or the element a reference wraps; nothing else in the grammar changes |
| Grammars.AxiomAsWritten | src/parsing.py:410-416 | as written, `axiom` accepts an element and rejects every reference argument |
| Grammars.AxiomAsWrittenRejectsReferences | src/parsing.py:410-416 | written and intended `axiom` agree on elements; on every reference the written one fails where the intended one designates the wrapped element |
| Grammars.Skip | src/parsing.py:418-421 | `skip` accepts exactly element arguments, makes that element the skip element, and changes nothing else |
| Scenarios.SingleWord | src/parsing.h:358-379 | a grammar whose axiom is `Word("a")` parses "a" as a success over `(0, 1)` |
| Scenarios.ChoiceFallsThrough | src/parsing.h:494-506 | in a group of `cat` and `car` on "car", `cat` fails and the group's only child is `car`'s match over `(0, 3)` |
| Scenarios.OptionalAbsent | src/parsing.h:487-492 | an optional reference to `Word("x")` on "y" yields the empty match at offset 0 |
| Scenarios.RuleOfRefusingCondition | src/parsing.h:508-520 | a rule whose only child is a refusing condition fails on every input |
| Scenarios.AxiomOfOptionalWord | src/parsing.py:410-416 | `g.axiom(Word("a").optional())` fails as written, while the intended `axiom` designates the word |

## Left out

- `Iterator`, `FileInput` and `Grammar_parseFromPath` / `Grammar.parsePath` (`src/parsing.h:74-165`, `src/parsing.h:200-203`, `src/parsing.py:423-424`): these are file and stream I/O. The model parses an in-memory string.
- POSIX/PCRE regular-expression matching inside `Token_recognize`: this is a foreign library. It is the `token` parameter of `Env`. `TokenMatch` groups and `TokenMatch_group` (`src/parsing.h:400-423`) are not modelled, because the parameter only returns a length.
- Condition callbacks return a `Match*` (`src/parsing.h:552`). The model reduces the callback to a yes/no verdict, and a yes is always a zero-width success at the offset; a callback that returns a match with its own length or children is not modelled.
- Condition and procedure callbacks: these are user code. A condition's verdict is the `condition` parameter of `Env`. A procedure's side effects on the parsing context are not modelled. The binding's `WrapCallback` is not modelled either; it passes `NULL` to C.
- The memoization table (`ParsingContext`, `ParsingOffset`, `ParsingStep`, `src/parsing.h:572-632`) and the binding's `disableMemoize`/`disableFailMemoize` (`src/parsing.py:187-191`, `238-242`). The binding's versions only return `self`. In the model a condition's verdict is a function of `(id, input, offset)` alone and a procedure has no effect, so recomputing a result gives the memoized one; the model recomputes.
- `Grammar_prepare` and `Grammar.prepare` (`src/parsing.h:197`, `src/parsing.py:406-408`), including the breadth-first re-numbering of element ids (`src/parsing.h:235-237`): the C body is not part of this model. `Axiom` therefore does not call a preparation step.
- Applying the skip element during parsing (`src/parsing.h:567-569` only says it is applied "if necessary"): where it is applied is not stated in the header, so the model stores the skip element but recognition never applies it.
- `ParsingElement_process` and the match's `data`/`context` fields (`src/parsing.h:243-252`, `347-351`): user-bound actions and opaque payloads.
- `Element_walk`, `Match__walk`, `Reference__walk`, `Match.walk`, `Grammar.walk` (`src/parsing.h:210-220`, `src/parsing.h:310`, `src/parsing.h:485`, `src/parsing.py:123-128`, `src/parsing.py:426-436`): the header does not state the visitor's protocol (the meaning of the callback's `step` and return value).
- The accessors `name()`, `offset()`, `length()` and `element()` (`src/parsing.py:130-137`, `161-162`, `213-214`) are plain field reads of the datatypes.
- `ParsingElement.id()` and `Reference.id()` (`src/parsing.py:164-165`, `216-217`) and the `id` fields they read (`src/parsing.h:315`, `src/parsing.h:443`) are not modelled. The grammar assigns those ids as the breadth-first distance to the axiom when it prepares (`src/parsing.h:235-237`), and that step is not part of this model. The model's arena indices are creation order and stand only for object identity; they are not the library's ids.
- Destructors (`*_free`): memory management.
- `Utilities_indent`/`dedent`/`checkIndent` (`src/parsing.h:639-646`), the construction macros (`src/parsing.h:702-788`) and the cffi declaration loading (`src/parsing.py:1-80`): these are not part of the recognition or grammar-building behaviour.
- The C-level `next` link of a `Reference` (`src/parsing.h:447`), which strings children together. The model holds the children as a sequence of reference identities instead.
- `example/grammar.py`: a usage example, not library code.
- The type tags (`TYPE_*`, `src/parsing.h:268-283`) and `ParsingElement_Is`/`Reference_Is`: the model tells element kinds and references apart by their datatypes.
- Construction.AppendChild: a no-op on tokens as on every terminal. The header's comment names `Token` as an example of a composite element (`src/parsing.h:339-340`), but it also says tokens have no children (`src/parsing.h:385-386`) and names groups and rules as the composite elements (`src/parsing.h:498`, `src/parsing.h:512`); the model follows the latter.
- Construction.Add: assumes each reference is added once, to one parent. In the library a parent's children are a list threaded through `Reference.next` (`src/parsing.h:318`, `src/parsing.h:447`), and a reference is owned by its single parent (`src/parsing.h:474-475`). Adding the same reference twice, to one parent or to two, relinks that list; the model instead lists the reference in every position it was added to.
- Grammars.Store: `Symbols` keeps entries as attributes of a Python 2 old-style instance (`src/parsing.py:336-340`). Storing under `__dict__` or `__class__` raises `TypeError`, and storing under `__getitem__` replaces the lookup method itself. The model's table accepts every key as an ordinary one.
- Grammars.Lookup: `symbols[k]` is `getattr` (`src/parsing.py:342-343`), so attribute names such as `__doc__` and `__module__` are found without having been stored; the model finds only stored keys.
- Grammars.StoreThenLookup: the round trip is stated for keys that behave as ordinary attributes; for `__dict__`, `__class__` and `__getitem__` the library does not complete it, as the two lines above say.
- Grammars.LookupAfterStores: stated for keys that behave as ordinary attributes, for the same reason.
- Matches.Range: FAILURE has no range in the model, because the field values of the `FAILURE_S` singleton are not stated.
- Recognition.RecognizeReference: recognition carries a fuel bound that the library does not have. A result reached within the bound is the library's result, and the fuel lemmas show it does not depend on the bound. Grammars whose recognition does not terminate (left recursion) are not characterised beyond "no verdict within the bound".
- Recognition.Repeat: after a zero-width success the repetition keeps that match and stops. The header does not say what the library does in that case.
- Recognition.Parse: a grammar without an axiom yields `NoAxiom`. What `Grammar_parseFromIterator` does in that case is not stated in the header.

## Findings

| source | as written | input that shows it | evidently intended | confidence | as-written member | corrected member |
|---|---|---|---|---|---|---|
| src/parsing.py:410-416 | for a `Reference` argument, `axiom` replaces the argument by the raw C pointer `axiom._cobject.element` and then asserts `isinstance(axiom, ParsingElement)`, which a cffi pointer never satisfies, so the assertion fails (and without assertions, `axiom._cobject` is not an attribute of the pointer) | `g.axiom(Word("a").optional())` | a reference argument makes the element it wraps the axiom | not executed; high, from reading the types | Grammars.AxiomAsWritten, Scenarios.AxiomOfOptionalWord | Grammars.Axiom, with Grammars.AxiomAsWrittenRejectsReferences |
