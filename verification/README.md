# Verification of rustmatch

rustmatch compiles a set of regular expressions into one Thompson automaton and reports, for
every pattern and every start in a UTF-16 text, the longest consuming match.  Around the plain
scan it has a lazily built transition cache, two start filters, candidate discovery shared
between partitions with a vector kernel, partitions scanned by threads, and a two-root
automaton scanned as two views.  All of these are claimed to change nothing about the events.

This project models that pipeline in Dafny and proves the claims.  The chain runs from syntax
to delivered events:

| step | modules |
|---|---|
| text and meaning of patterns | Base, Assertions, AssertionLaws, Predicates, HirSyntax, Meaning, Interpreter, HirBuild, HirFacts, HirShape |
| parsing | PatternSyntax, PatternFault, PatternUnique, PatternVerdict, PatternMeaning, PatternBehind, PatternClass, PatternParser |
| compilation | Graph, CompiledMeaning, Emission, NfaCompiler, Layout, Database, Reading |
| scanning | Fronts, ScanSpec, Sorting, Closure, Scanner, Cache |
| the event contract | PatternEvents, Contract, Reentry |
| start filters | Bits, Bitmap, Prefix, PrefixLaws, LiteralFilter, StartTable, Engine |
| shared candidates | Simd, SharedCandidate |
| matchers | MatcherApi, Builder, Cohorts, CohortScan, Parallel |

Two relations carry the compiler proof.  `Matches` is the intended meaning between cursors, a
position plus the flag that says whether anything was consumed.  `Exits` and `Returns` are what
the compiled form really does: run to its end state, or come back to its start state.  The
emitted edges realise `Exits` and `Returns` exactly, for every expression.  `Matches` implies
`Exits` always.  The converse needs the expression to be *well shaped*: no alternation of two
or more branches has a re-entrant branch, and no repetition that may stop early has a
re-entrant body, where an expression is re-entrant if its compiled form has a way back into its
own start state.

The parser is tied to syntax trees that record their spelling (PatternSyntax), and to a
description of what can be broken in a source, each with the error it is reported with
(PatternFault).  Neither mentions the parser.  Every source has one verdict: two trees never have
the same writing, a source is broken in one way only, and one that is the writing of a tree is
broken only where a group too many opens (PatternVerdict).  The parser finds that verdict for
every source, with the exact span.  The expression it builds means what the tree denotes and has
its shape, so a condition on the tree says which patterns are well shaped.  `Builder.Deliver`
joins the two ends: from the trees that were written to the events that are delivered.

Methods over classes and arrays stand for the code that updates state in place; each is tied to
a specification function or relation, and the theorems are about those.

## Where the code and its description differ

* The repository's README promises events for legal consuming paths.  Branches of an alternation
  share a start state and an unbounded repetition adds an edge back into it, so `a*|b` also
  accepts `ab` and `(a*b)?` also accepts `a`.  `Reentry.StarOrUnit` and `Reentry.OptionalStar`
  show it, and `Reentry.RunOrTextExact` and `Reentry.OptionalStarExact` say when it happens.
  Nothing is lost by it (`CompiledMeaning.NoMatchLost`), well-shaped patterns are exact
  (`CompiledMeaning.NoMatchAdded`), and `Reading.ReadMeans` says what any pattern really matches.
* `Hir::Sequence` of nothing compiles to no edge although it means the empty match.  The
  constructors never build it; `Reentry.EmptySequenceIsLost` records it.
* `()` and `(?:)` parse to an expression that never matches, not to the empty match.
* A bar with nothing behind it at the end of a pattern or group adds no branch.
* `Hir::repeat` ignores `min` in two shortcuts, so out-of-order bounds change its meaning there
  (`HirBuild.RepeatExactlyWhen`); the parser never passes such bounds.
* An exact literal is exact for the first 32 units only (`Prefix.ExactSound`).
* The vector kernel rejects starts with fewer than five units left, which the scalar filter may
  admit; candidate sets differ there, events do not (`SharedCandidate.KernelAgrees`).
* A missed transition that cannot be interned counts as a miss and as a fallback, so those
  counters do not sum to the number of transitions; they are not modelled.

## How to read the model

* Code units are integers below 65,536; table words and hashes are bit vectors of their real
  width; state and predicate ids are natural numbers with the 32-bit limit checked where the
  code checks it; stamps wrap at 32 bits.
* The plain and the assertion-aware scan loop are one method, `Scanner.ScanNfa`; the flag
  `Job.contextual` says whether assertion edges exist for it.  The closure of `StartTable` and
  its transition share one drain loop.
* `Sorting.Sorted` and the pair sort of `Predicates` stand for the library's unstable sorts: on
  the values sorted here the result is unique.  The cache's hash map is an association list
  searched by equality of hash and list.
* Table bit numbers of the four- and five-unit hashes are written as word and place within the
  word.  Whether the processor has the kernel is a parameter.
* Ghost parameters of methods name the patterns that the specification is about, ghost results
  what a parsing method has read or found broken; they influence no computed value.
* The parser's last test, that nothing is left to read behind the alternation, never fails and is
  an assertion here.
* Thresholds have the values of a release build.

## Model

| member | source | states |
|---|---|---|
| Interpreter.InterpretIsMeaning | rustmatch/src/engine.rs:1322-1408 | The test suite's interpreter over `(position, after_current)`, with its bound of `min + length + 1` rounds, accepts exactly the cursors the relation `Matches` gives, for every expression, text and cursor |
| Interpreter.BoundSuffices | rustmatch/src/engine.rs:1375-1408 | Cutting an unbounded repetition off after `min + length + 1` rounds loses no end position |
| AssertionLaws.BoundaryEndsRun | rustmatch/src/engine.rs:948-978 | `\b` holds exactly at the two ends of each maximal non-empty run of letters, digits and underscores, defined over slices of the text, and `\B` exactly elsewhere |
| AssertionLaws.LineStartIs | rustmatch/src/engine.rs:948-978 | `^` holds exactly at the offsets at which the lines begin that splitting the text at newlines gives |
| AssertionLaws.LineEndIs | rustmatch/src/engine.rs:948-978 | `$` holds exactly at the offsets at which those lines end, and only after something was consumed |
| AssertionLaws.SplitIsUnique | rustmatch/src/engine.rs:948-978 | A text splits into lines in one way only |
| HirBuild.MakeSequence | rustmatch/src/hir.rs:68-83 | The loop builds the specified normal form, which keeps the meaning "the items in a row" and brings in no empty sequence node |
| HirBuild.MakeAlternation | rustmatch/src/hir.rs:85-99 | The loop builds the specified normal form, which keeps the meaning "one of the branches" and brings in no empty sequence node |
| HirBuild.RepeatPreserved | rustmatch/src/hir.rs:101-113 | `repeat` keeps the meaning of the repetition whenever its bounds are in order |
| HirBuild.RepeatExactlyWhen | rustmatch/src/hir.rs:101-113 | With bounds out of order it keeps the meaning if and only if neither of the two shortcuts that ignore `min` applies |
| HirShape.SequenceShape | rustmatch/src/hir.rs:68-83 | When a built row is impossible, empty, re-entrant or well shaped, decided from its items: it is re-entrant exactly if the first item that is not empty is, and well shaped exactly if an item is impossible or all are well shaped |
| HirShape.AlternationShape | rustmatch/src/hir.rs:85-99 | The same for a built choice: re-entrant exactly if a branch is, and well shaped exactly if all branches are and, where two can match, none is re-entrant |
| HirShape.RepeatShape | rustmatch/src/hir.rs:101-113 | The same for a built repetition: re-entrant exactly if its body can match something and it is unbounded from zero or its body is re-entrant; well shaped exactly if its body is and, where the count may vary, is not re-entrant |
| HirShape.SequenceKeepsShape | rustmatch/src/hir.rs:68-83 | A row of well-shaped items is well shaped, whatever the items are |
| HirShape.AlternationKeepsShape | rustmatch/src/hir.rs:85-99 | A choice of well-shaped branches none of which is re-entrant is well shaped, and re-entrant only if a branch is, whatever the branches are |
| HirShape.SequenceWords | rustmatch/src/hir.rs:68-83 | A built row spells no word exactly if an item does not, and only the empty one exactly if every item spells only that |
| HirShape.AlternationWords | rustmatch/src/hir.rs:85-99 | A built choice spells no word exactly if no branch does, and only the empty one exactly if some branch spells it and none spells another |
| HirShape.RepeatWords | rustmatch/src/hir.rs:101-113 | A built repetition spells no word, or only the empty one, exactly as its body and its least count decide |
| HirFacts.MatchSpells | rustmatch/src/hir.rs:115-167 | Every match consumes a word the expression spells when assertions are read as empty |
| HirFacts.SpelledMatches | rustmatch/src/hir.rs:115-167 | Without assertions every spelled word that stands in the text is a match |
| HirFacts.NullableIsExact | rustmatch/src/hir.rs:115-126 | `nullable` decides whether the empty word is spelled |
| HirFacts.MinimumIsExact | rustmatch/src/hir.rs:127-153 | `minimum_consumed` is the length of a shortest spelled word, saturated at the largest `usize`, and `None` exactly if no word is spelled |
| HirFacts.CanConsumeIsExact | rustmatch/src/hir.rs:154-168 | `can_consume` decides whether some non-empty word is spelled |
| HirFacts.ZeroWidthIsExact | rustmatch/src/parser.rs:30-37 | The parser's three-part zero-width test holds exactly of expressions whose only word is the empty one |
| Predicates.InsertRange | rustmatch/src/predicate.rs:54-67 | Inserting a range adds exactly its units and keeps the form canonical; a reversed range changes nothing and is reported |
| Predicates.Union | rustmatch/src/predicate.rs:69-75 | Union of the values is union of the sets, and canonical |
| Predicates.Complement | rustmatch/src/predicate.rs:76-97 | Complement of the value is complement within all 65,536 units, and canonical |
| Predicates.NormalizeRanges | rustmatch/src/predicate.rs:148-161 | Sorting and merging keeps the set and leaves the ranges sorted, disjoint and not adjacent |
| Predicates.SortPairsIsUnique | rustmatch/src/predicate.rs:148-161 | However pairs are sorted, stably or not, a sorted rearrangement of them is the one the model computes |
| Predicates.RangeMaskBit | rustmatch/src/predicate.rs:138-146 | The shifted 128-bit mask has exactly the bits of the ASCII part of the range |
| Predicates.PartitionPoint | rustmatch/src/predicate.rs:98-108 | Bisection finds the first range that does not end before the unit |
| Predicates.MatchesUnit | rustmatch/src/predicate.rs:98-108 | Mask test and binary search together decide membership; this is the test the scans use |
| Predicates.CanonicalUnique | rustmatch/src/nfa.rs:574-587 | Equal sets are equal values, so interning by equality merges exactly the equal predicates |
| Predicates.DoubleComplement | rustmatch/src/predicate.rs:76-97 | Complementing twice gives the same value back |
| Predicates.EmptyMeansNothing | rustmatch/src/predicate.rs:110-113 | `is_empty` decides emptiness |
| PatternParser.ParseWithFlags | rustmatch/src/parser.rs:15-38 | Every source is the writing of a tree or broken, and that decides the result. For every tree it is the writing of: it is rejected as too deep if the tree nests deeper than 256, as zero-width with the span of the whole source if only the empty text is of its form, and otherwise yields an expression that means what the tree denotes and has its shape. For everything that is broken in it: it is rejected with exactly that error and span. It is rejected as too deep only if it holds more than 256 opening parentheses, and a parenthesis that closes nothing behind a well-written part is reported at its unit |
| PatternVerdict.OneTree | rustmatch/src/parser.rs:15-430 | No two trees have the same writing: groups, bars, flags, quantifiers, escapes and class members are read in one way only |
| PatternVerdict.TreeOrBroken | rustmatch/src/parser.rs:15-430 | A source that is the writing of a tree is broken only where one group too many opens, and then the tree nests too deep |
| PatternVerdict.OneBreak | rustmatch/src/parser.rs:15-430 | A source is broken in one way only, so its error is determined |
| PatternVerdict.StrayBreaks | rustmatch/src/parser.rs:98-111 | A source well written up to a parenthesis that closes nothing is broken there, with the span of that unit |
| PatternFault.DeepHasOpens | rustmatch/src/parser.rs:157-166 | One group too many opens only in a source with more opening parentheses than groups may nest |
| PatternFault.DeepErrors | rustmatch/src/parser.rs:157-166 | Nothing else that is broken is reported as nesting too deep |
| PatternParser.WeightlessIsExact | rustmatch/src/parser.rs:30-37 | The tree alone decides whether its expression spells only the empty word |
| PatternParser.Parser.ConsumeFlagPrefix | rustmatch/src/parser.rs:59-84 | A written flag prefix is consumed exactly if the source begins with one, and case folding is set exactly if `i` is among the flags |
| PatternParser.Parser.ParseAlternation | rustmatch/src/parser.rs:86-96 | What is accepted is the writing of branches up to the close of the group or the end, a trailing bar dropped, and means one of them; otherwise the units ahead are broken branches and the error is theirs |
| PatternParser.Parser.ParseSequence | rustmatch/src/parser.rs:98-111 | What is accepted is the writing of a branch, up to a bar, the close of the group or the end, and means its items in a row; otherwise the units ahead are a broken branch, for example by a parenthesis that closes nothing, and the error and span are its |
| PatternParser.Parser.ParseAtom | rustmatch/src/parser.rs:113-139 | What is accepted is the writing of an atom and means what it denotes; otherwise a fault begins here, and the error and span are its |
| PatternParser.Parser.ParseGroup | rustmatch/src/parser.rs:141-176 | What is accepted is the writing of a group, and the depth is restored; otherwise the group has a bad mark, is one too many, is broken inside or is not closed, and the error is reported so |
| PatternParser.Parser.ParseRepetition | rustmatch/src/parser.rs:178-203 | What is accepted is the expression repeated with the bounds of the quantifier read, or itself if there is none, and no operator follows; otherwise the quantifier is doubled or its count is bad, with exactly the span |
| PatternParser.Parser.ParseCountedRepetition | rustmatch/src/parser.rs:205-245 | What is accepted is `{m}`, `{m,}` or `{m,n}`, leading zeros included, with bounds in order, at most 1,000 and an upper bound other than zero, and repeats with exactly these bounds; otherwise one of seven slips stands here, with exactly the span |
| PatternParser.Parser.ParseCount | rustmatch/src/parser.rs:247-269 | Reads the longest run of digits; accepts it with its decimal value exactly if it is not empty and at most 1,000, although the accumulator saturates, and gives the exact span otherwise |
| PatternParser.Parser.ParseEscape | rustmatch/src/parser.rs:271-290 | Decides every escape: which are accepted, what each means, and the span of each rejected one |
| PatternParser.Parser.ParseCharacterClass | rustmatch/src/parser.rs:292-350 | What is accepted is the writing of a class and means its units, through the pending literal and range states, negated if inverted; otherwise one of six slips stands behind the members read, with exactly the span |
| PatternParser.Parser.ParseClassToken | rustmatch/src/parser.rs:352-378 | Decides every token of a class, escaped or not |
| PatternParser.Parser.LiteralOf | rustmatch/src/parser.rs:384-397 | Case folding gives the lower and upper mapping exactly when they differ |
| PatternParser.Parser.InsertClassLiteral | rustmatch/src/parser.rs:399-406 | Adds the unit and, folding, both mappings |
| PatternParser.Parser.InsertClassRange | rustmatch/src/parser.rs:408-429 | Succeeds exactly if the range and, folding, both mapped ranges are in order; then adds exactly these |
| PatternParser.ShorthandClass | rustmatch/src/parser.rs:438-453 | The six shorthands are canonical classes with exactly the documented members |
| Builder.MatcherBuilder.constructor | rustmatch/src/api.rs:51-74 | An empty builder with the default budget, one worker and both filters enabled |
| Builder.MatcherBuilder.AddWithFlags | rustmatch/src/api.rs:232-246 | Refuses a used identifier, leaves everything unchanged on any refusal, and otherwise registers exactly one pattern, for the tree that the source is the writing of. The tree, or what is broken in the source, decides whether it is refused and why |
| Builder.MatcherBuilder.Add | rustmatch/src/api.rs:218-220 | The same without case folding |
| Builder.MatcherBuilder.Build | rustmatch/src/api.rs:254-276 | Which error is reported when; otherwise a matcher for exactly the registered patterns |
| Builder.ShapelyIsWellShaped | rustmatch/src/hir.rs:68-113 | The tree alone decides whether the expression built for it is well shaped |
| Builder.ExactlyTheLongest | README.md:525-535 | From tree to event: a registered tree in which no real choice and nothing optional can begin with an unbounded loop has, for every start, exactly one event if it has a consuming match there, with the longest match's end, and none otherwise, whatever else is registered |
| Builder.NoTreeUnreported | README.md:525-535 | Whatever its shape, a registered tree with a consuming match from a start is reported there once, with an end at least as great |
| Builder.OnlyRegistered | rustmatch/src/api.rs:36-43 | Identifiers being unique, no event comes twice, and none under an identifier that is not registered |
| Builder.Deliver | rustmatch/src/api.rs:691-722 | The whole chain, from registered trees to delivered events: a scan with any worker count, budget, switches and processor delivers for every such tree exactly the longest consuming match of each start, and leaves no match of any tree unreported |
| Emission.EmitExact | rustmatch/src/nfa.rs:406-565 | For every expression, the edges emitted between two states are a fragment over a contiguous range of new states in which no edge leaves the end state, and whose paths from start to end and from start back to start are exactly the relations `Exits` and `Returns` |
| Graph.Serial | rustmatch/src/nfa.rs:446-456 | Chaining two fragments through one shared state composes their path relations, and only a re-entrant first fragment returns to the start |
| Graph.Parallel | rustmatch/src/nfa.rs:457-469 | Fragments sharing start and end states: any number of returns to the shared start, then an exit of some branch |
| Graph.Skip | rustmatch/src/nfa.rs:528-548 | An optional copy: leave for the end, or return, or go on |
| Graph.Loop | rustmatch/src/nfa.rs:549-562 | An epsilon edge back into the loop state: rounds that may be cut short by returning |
| CompiledMeaning.NoMatchLost | rustmatch/src/nfa.rs:406-565 | Every match of the meaning is accepted by the compiled form, whatever the shape of the expression |
| CompiledMeaning.NoMatchAdded | rustmatch/src/nfa.rs:406-565 | For well-shaped expressions the compiled form accepts nothing else |
| Reentry.StarOrUnit | rustmatch/src/nfa.rs:457-469 | The alternation of `u*` and `v` accepts `uv`, which it does not mean |
| Reentry.RunOrTextExact | rustmatch/src/nfa.rs:457-469 | For all alternations of `u*` and a plain text, the automaton is exact on all texts if and only if every unit of the text is `u` |
| Reentry.OptionalStar | rustmatch/src/nfa.rs:528-548 | `(u*v)?` accepts `u`, which it does not mean |
| Reentry.OptionalStarExact | rustmatch/src/nfa.rs:528-548 | `(u*v)?` is exact on all texts if and only if `u = v` |
| Reentry.EmptySequenceIsLost | rustmatch/src/nfa.rs:446-456 | An empty sequence node means the empty match but compiles to no edge |
| Reading.ReadMeans | rustmatch/src/nfa.rs:406-565 | For every expression, well shaped or not, the compiled form accepts exactly what a rewritten expression means: sharing a start state reads as looping through the re-entrant branches first |
| Reading.BackMeans | rustmatch/src/nfa.rs:457-469 | What coming back to the entry state amounts to, as an expression, for every expression |
| Reading.ReadingIsFaithful | rustmatch/src/nfa.rs:406-565 | On well-shaped expressions the rewriting changes no meaning |
| NfaCompiler.Compiler.CompileExpression | rustmatch/src/nfa.rs:406-491 | The method that pushes edges and states in place produces exactly the specified emission, interns exactly its predicates and changes no earlier state; it succeeds if and only if the states and the distinct predicates fit in 32-bit ids |
| NfaCompiler.Compiler.CompileRepetition | rustmatch/src/nfa.rs:493-565 | The same, success included, for counted, optional and unbounded repetition |
| NfaCompiler.Compiler.InternPredicate | rustmatch/src/nfa.rs:574-587 | The id names an equal predicate; a predicate is added exactly if it was not known, and refused exactly if the ids are used up |
| NfaCompiler.InternedMembers | rustmatch/src/nfa.rs:574-587 | Over a whole emission, interning uses one id per distinct predicate, no more |
| NfaCompiler.Compiler.AddState | rustmatch/src/nfa.rs:589-598 | A fresh state with no edges and no terminals, refused exactly at the id limit |
| NfaCompiler.Compiler.Push | rustmatch/src/nfa.rs:567-572 | Appends one edge to one row |
| NfaCompiler.Compiler.constructor | rustmatch/src/nfa.rs:203-212 | Roots without edges or terminals |
| Database.AddPattern | rustmatch/src/nfa.rs:213-231 | Adds a pattern's two outer states, its root edge, its body and its terminal, and touches nothing else; succeeds if and only if all of it fits |
| Database.Flatten | rustmatch/src/nfa.rs:232-262 | The flat edge and terminal arrays give every state its own rows back, in order |
| Database.Compile | rustmatch/src/nfa.rs:203-262 | The database represents exactly the patterns, one terminal each, and knows whether any uses assertions; there is none if and only if the states, or the distinct predicates, exceed the 32-bit ids |
| Database.Takes | rustmatch/src/nfa.rs:188-201 | An edge is taken over a unit exactly if its label has the unit, classes decided by mask and bisection |
| Layout.PatternsIndependent | rustmatch/src/nfa.rs:212-231 | In the shared automaton, a pattern's terminal is reached from a root exactly by the pattern's own accepting paths |
| Layout.AssertionFreeRoot | rustmatch/src/nfa.rs:268-370 | From a root with only assertion-free patterns, dropping all assertion edges changes nothing that is reachable |
| Layout.GuardsExactly | rustmatch/src/hir.rs:169-178 | `uses_assertions` holds of a parsed expression exactly if its compiled form has an assertion edge |
| ScanSpec.Job.EventsAreLongestMatches | rustmatch/src/engine.rs:220-287 | An event occurs among those of a start exactly as often as there are patterns whose longest consuming match there it is |
| ScanSpec.Job.LongestIsGreatest | rustmatch/src/engine.rs:685-750 | The reported end is accepted and no greater one is |
| Fronts.NextFront | rustmatch/src/engine.rs:382-407 | Stepping a set of states over one unit gives exactly the states reachable after it |
| Fronts.ReachedCursor | rustmatch/src/engine.rs:842-866 | Every reachable configuration carries the `after` flag its position dictates, so one set of states per position is enough |
| Closure.ExtendClosure | rustmatch/src/engine.rs:867-946 | The worklist terminates and adds exactly the states reachable without consuming; marks and output agree |
| Closure.ExtendClosureStamped | rustmatch/src/engine.rs:890-912 | With generation stamps instead of booleans, the same set |
| Scanner.Scratch.constructor | rustmatch/src/engine.rs:1005-1018 | Fresh scratch space that fits the database |
| Scanner.Scratch.ResetCachedTransition | rustmatch/src/engine.rs:1046-1055 | After a reset the stamps act as an all-unmarked array, also when the 32-bit generation wraps |
| Scanner.Scratch.ResetTerminals | rustmatch/src/engine.rs:1034-1038 | Visiting only the touched patterns forgets every recorded end |
| Scanner.RecordTerminal | rustmatch/src/engine.rs:992-1002 | Records an end and keeps the list of touched patterns exact |
| Scanner.ComputeTransition | rustmatch/src/engine.rs:382-407 | The stamped step gives the same set as the boolean step, sorted |
| Scanner.AdvanceFront | rustmatch/src/engine.rs:685-750 | One position: the front stays exact and the recorded ends become the longest so far |
| Scanner.BestIsFinal | rustmatch/src/engine.rs:220-287 | Stopping when the front is empty or the text ends misses no longer match |
| Scanner.OrdinalsInOrder | rustmatch/src/engine.rs:220-287 | Emitting the sorted touched patterns is emitting every pattern with an end, in registration order |
| Sorting.SortedIsUnique | rustmatch/src/engine.rs:382-407 | However a list of distinct indices is sorted, the result is the one the model computes |
| Scanner.ScanStart | rustmatch/src/engine.rs:238-287 | The events of one start |
| Scanner.ScanNfa | rustmatch/src/engine.rs:220-287 | Over any starts in any order, plain or assertion-aware, the scan makes exactly the specified calls, in order |
| Cache.DeterministicCache.constructor | rustmatch/src/engine.rs:472-495 | The cache starts with the root closure as state 0, within its budget |
| Cache.DetState.SetTransition | rustmatch/src/engine.rs:457-464 | Storing a transition changes that slot only, in the ASCII table or the overflow list |
| Cache.HashesDiffer | rustmatch/src/engine.rs:603-612 | State sets of one size that differ in the lowest byte of one state index never have the same hash |
| Cache.DeterministicCache.Lookup | rustmatch/src/engine.rs:509-517 | Finds a state set if and only if it is interned, hash collisions included |
| Cache.DeterministicCache.Intern | rustmatch/src/engine.rs:519-536 | State sets stay distinct and within budget, ids stay below the three sentinels, and interning is refused only of a set that is not there, and only when the budget or the id space is used up |
| Cache.DeterministicCache.Step | rustmatch/src/engine.rs:538-601 | Whatever is stored, missed or refused, the outcome is exactly the successor set. A known slot changes nothing; an unknown one is filled with the outcome, no other slot changes, and the set found is interned unless there is no room for it |
| Cache.EnteredAnywhere | rustmatch/src/engine.rs:382-407 | Without assertions a successor depends on neither text nor position, so transitions may be reused |
| Cache.Advance | rustmatch/src/engine.rs:338-378 | The cursor, cached or fallen back, always carries the true state set; having fallen back it leaves the cache as it is and returns to it as soon as its set is interned |
| Cache.ScanStartCached | rustmatch/src/engine.rs:289-380 | One start through the cache gives the specified events |
| Cache.ScanCached | rustmatch/src/engine.rs:289-380 | For every budget and start sequence, the cached scan makes exactly the calls of the plain scan |
| Cache.ScanPlain | rustmatch/src/engine.rs:203-218 | A zero budget selects the uncached scan; either way the same calls |
| PatternEvents.HitsAreAccepts | rustmatch/src/nfa.rs:212-231 | A database reports a match of a pattern exactly where the pattern's own compiled form accepts |
| PatternEvents.EventsBag | rustmatch/src/engine.rs:47-119 | A full scan yields, as a multiset, the events of the scanned root's patterns |
| PatternEvents.ScanBagSplits | rustmatch/src/api.rs:278-316 | Splitting the pattern list splits the event multiset |
| Contract.AcceptsIsMatch | README.md:525-535 | Accepting paths are legal consuming matches: never fewer, and on well-shaped patterns never more |
| Contract.RegularIsExact | rustmatch/src/parser.rs:15-38 | Whatever the parser builds has no empty sequence node, so well-shaped parsed patterns are exact and no parsed pattern goes unreported |
| Contract.ScanBagIsContract | README.md:525-535 | On well-shaped patterns the event multiset is the documented contract, counted per registered pattern: one event per start that has a consuming match, with the greatest end |
| Contract.NothingUnreported | README.md:525-535 | Whatever the shapes, a pattern with a match from a start is reported there, with an end at least as great |
| Prefix.ExactSound | rustmatch/src/prefilter.rs:725-757 | An exact literal is the first 32 units of whatever the compiled pattern consumes |
| Prefix.PrefixSound | rustmatch/src/prefilter.rs:670-723 | Whatever the compiled pattern consumes begins with the necessary prefix |
| Prefix.ExactIsPrefix | rustmatch/src/prefilter.rs:670-757 | Where both analyses apply they agree |
| Prefix.SharedPrefixIsGreatest | rustmatch/src/prefilter.rs:688-704 | An alternation keeps the longest prefix its branches have in common |
| Prefix.PlainTextPrefix | rustmatch/src/prefilter.rs:725-762 | A plain text is its own prefix, up to 32 units |
| Prefix.UntilFullIsBounded | rustmatch/src/prefilter.rs:705-720 | Stopping once 32 units are reached changes nothing |
| PrefixLaws.ExactSequence | rustmatch/src/prefilter.rs:725-735 | A row has an exact literal exactly if all items have, and it is the first 32 units of theirs in a row |
| PrefixLaws.ExactAlternation | rustmatch/src/prefilter.rs:736-742 | A choice has an exact literal exactly if all branches have the same one |
| PrefixLaws.ExactRepeat | rustmatch/src/prefilter.rs:743-754 | A repetition has an exact literal exactly if its count is fixed and its body has one; it is the first 32 units of an ordinary power of the body's |
| PrefixLaws.PrefixSequence | rustmatch/src/prefilter.rs:670-682 | The prefix of a row is that of its exact items in a row and then of the first inexact one, cut at 32 units |
| PrefixLaws.SequenceGrows | rustmatch/src/prefilter.rs:670-682 | Further items never shorten the prefix of a row |
| PrefixLaws.PrefixAlternation | rustmatch/src/prefilter.rs:683-702 | The prefixes of a choice's prefix are exactly the common prefixes of its branches' |
| PrefixLaws.PrefixRepeat | rustmatch/src/prefilter.rs:703-718 | The prefix of a repetition taken at least once does not depend on the upper bound, extends that of the body, and is the first 32 units of a power of the body's exact literal if it has one |
| PrefixLaws.HintsExactly | rustmatch/src/prefilter.rs:659-668 | There are hints exactly if every pattern's prefix has three units or more |
| PrefixLaws.RepeatedTextsHaveHints | rustmatch/src/prefilter.rs:659-720 | Patterns that each repeat, at least once, a plain text of three units or more always have hints |
| LiteralFilter.Compile | rustmatch/src/prefilter.rs:776-828 | The three tables hold exactly the bits the hints select |
| LiteralFilter.HintPasses | rustmatch/src/prefilter.rs:851-891 | A start carrying a hint passes, whatever collides, whatever is not ASCII, wherever the text ends |
| LiteralFilter.AdmitsExactly | rustmatch/src/prefilter.rs:851-891 | A start passes if and only if a unit of its window is not ASCII, or one of the three lookups hits |
| LiteralFilter.ThreeIsExact | rustmatch/src/prefilter.rs:911-928 | The three-unit table has no collisions |
| LiteralFilter.OneUnitApart | rustmatch/src/prefilter.rs:919-928 | Two windows of ASCII units that differ in exactly one unit never share a bit of the four-unit or the five-unit table |
| LiteralFilter.MatchCarriesHint | rustmatch/src/prefilter.rs:659-668 | Every consuming match begins with its pattern's hint |
| LiteralFilter.ScanStarts | rustmatch/src/prefilter.rs:830-849 | Adds exactly the admitted starts of a range |
| Bits.TrailingZeros | rustmatch/src/prefilter.rs:994-1006 | The trailing zeros of a word locate its lowest set bit |
| Bits.SetBit | rustmatch/src/prefilter.rs:1008-1010 | Sets one bit of a word array and no other |
| Bitmap.CandidateBitmap.Insert | rustmatch/src/prefilter.rs:945-953 | Adds one start; the count stays the number of candidates |
| Bitmap.CandidateBitmap.CopyPrefix | rustmatch/src/prefilter.rs:955-958 | Takes over a sample's candidates |
| Bitmap.CandidateIter.Next | rustmatch/src/prefilter.rs:991-1006 | Produces the least candidate left and removes just that one |
| Bitmap.Collect | rustmatch/src/prefilter.rs:985-1006 | The iterator lists the candidates once each, ascending |
| StartTable.ClosureScratch.NextGeneration | rustmatch/src/prefilter.rs:641-648 | As a fresh all-unmarked array, across wraparound |
| StartTable.ClosureScratch.Drain | rustmatch/src/prefilter.rs:561-616 | The closure of the seeds, each state once |
| StartTable.EpsilonClosureInto | rustmatch/src/prefilter.rs:561-584 | The root closure, sorted |
| StartTable.TransitionInto | rustmatch/src/prefilter.rs:586-616 | The successor set, sorted |
| StartTable.CompileTable | rustmatch/src/prefilter.rs:449-485 | The tables hold exactly which first units, and which pairs of ASCII units, can lead on to a match; there is none exactly if the database uses assertions |
| StartTable.RejectedIsSilent | rustmatch/src/prefilter.rs:523-539 | A rejected start has no event, at the last unit and for non-ASCII units too |
| StartTable.AllowsExactly | rustmatch/src/prefilter.rs:523-539 | A start is allowed exactly if its unit is not ASCII, or a consuming path can begin with it and it is the last unit, is followed by a unit that is not ASCII, or a path can go on with that unit |
| Engine.CompilePrefilter | rustmatch/src/prefilter.rs:118-157 | Which filters exist for which pattern sets, and the recorded reason for a missing literal filter |
| Engine.Plan | rustmatch/src/prefilter.rs:245-303 | Exactly when and why the literal filter is bypassed; otherwise sample plus remainder is exactly the admitted set |
| Engine.SkippingSilentStarts | rustmatch/src/engine.rs:85-110 | Leaving out starts without events leaves the event sequence unchanged |
| Engine.ScanWithStats | rustmatch/src/engine.rs:47-119 | Whatever plan is chosen, the events are those of scanning every start, in the same order; the starts scanned are counted exactly: all of them, those the start table allows, or those the literal filter admits, as the plan's conditions say, and the rest are skipped |
| Simd.LowHalfStep | rustmatch-simd/src/lib.rs:119-147 | 32-bit lanes keep the low half of the 64-bit hash |
| Simd.GatherIsLookup | rustmatch-simd/src/lib.rs:137-153 | Selecting a 32-bit half-word and a bit in it is looking up the 64-bit table |
| Simd.OrOver127 | rustmatch-simd/src/lib.rs:124-135 | OR-ing units together finds exactly the windows with a non-ASCII unit |
| Simd.FiveLaneMask | rustmatch-simd/src/lib.rs:111-158 | The eight-lane mask is the scalar test of eight consecutive starts |
| Simd.CandidateWord | rustmatch-simd/src/lib.rs:56-83 | Full vectors and single starts together fill exactly the valid bits of a word |
| Simd.ScanFiveHashWords | rustmatch-simd/src/lib.rs:50-85 | For every offset, text and word count, the output words are the scalar bitmap and the result is their population count; the rest of the buffer is untouched |
| SharedCandidate.UnionWords | rustmatch/src/shared_candidate.rs:263-270 | ORs a table in place |
| SharedCandidate.UnionOf | rustmatch/src/shared_candidate.rs:177-200 | The union tables are exactly the unions |
| SharedCandidate.UnionAdmits | rustmatch/src/shared_candidate.rs:202-249 | The union filter admits a start if and only if some partition's filter does |
| SharedCandidate.KernelAgrees | rustmatch-simd/src/lib.rs:87-96 | The kernel differs from the scalar filter only where fewer than five units are left |
| SharedCandidate.ScanWordSliceScalar | rustmatch/src/shared_candidate.rs:289-308 | Fills its words with exactly the admitted starts and counts them |
| SharedCandidate.ScanWordSlice | rustmatch/src/shared_candidate.rs:272-287 | The same on whichever path is chosen |
| SharedCandidate.ScanShards | rustmatch/src/shared_candidate.rs:62-112 | Shards of any number cover every start once and add up to the whole count; an error exactly if a needed shard's thread cannot be spawned |
| SharedCandidate.ChunkIsLeast | rustmatch/src/shared_candidate.rs:62-112 | The chunk size is the least with which the shards stay within the thread limit |
| SharedCandidate.PlanShared | rustmatch/src/shared_candidate.rs:37-116 | Exactly when sharing is refused and when it errs; otherwise the plan is exactly what the chosen path admits |
| SharedCandidate.PlannedIsUnion | rustmatch/src/shared_candidate.rs:37-116 | On the scalar path the planned words hold a start if and only if the filter compiled for some partition admits it |
| SharedCandidate.PathKeepsHints | rustmatch/src/shared_candidate.rs:272-287 | On either path, a start left out carries no partition's hint |
| SharedCandidate.SharedIsPrivate | rustmatch/src/shared_engine.rs:32-36 | On the scalar path, filtering the shared starts again gives each partition its private candidate set |
| SharedCandidate.ScanWithSharedCandidates | rustmatch/src/shared_engine.rs:10-48 | On either path the events are those of scanning every start, in order, and exactly the shared starts that the partition's own filter admits are counted as scanned |
| MatcherApi.SharesCover | rustmatch/src/api.rs:283-296 | Shares cover everything contiguously and differ by at most one |
| MatcherApi.CompilePartitions | rustmatch/src/api.rs:278-316 | As many partitions as workers or patterns, each representing its own slice with its own share of the budget; none exactly if some slice is too large |
| MatcherApi.BudgetsSumToTotal | rustmatch/src/api.rs:305-314 | The budgets sum to the total |
| MatcherApi.Build | rustmatch/src/api.rs:253-276 | Exactly which error is reported when; otherwise a matcher for the patterns with the switches given |
| MatcherApi.ScanPartition | rustmatch/src/api.rs:992-1056 | One partition, shared candidates or not, yields its own patterns' events |
| MatcherApi.SharedPlanCovers | rustmatch/src/api.rs:856-880 | The shared plan leaves out no start any partition needs |
| MatcherApi.Scan | rustmatch/src/api.rs:691-722 | For every pattern set, text, worker count, budget, switch setting and processor, the delivered multiset is the registered patterns' events; on well-shaped patterns it is the documented contract; an error only if a thread of shared discovery cannot be spawned |
| Cohorts.StrictAssertionAsciiFive | rustmatch/src/nfa.rs:376-404 | The loop that fills a five-unit buffer, with its early exits, computes the analysis `StrictFive` |
| Cohorts.StrictFiveExactly | rustmatch/src/nfa.rs:376-404 | The analysis finds exactly the sequences that begin with assertions and empty expressions, at least one of them an assertion, followed by five ASCII symbols other than zero |
| Cohorts.StrictFiveSound | rustmatch/src/nfa.rs:376-404 | Whatever the compiled pattern consumes begins with the five units, because leading assertions consume nothing |
| Cohorts.Classify | rustmatch/src/nfa.rs:283-305 | One pattern more keeps the single common prefix, or gives up for good |
| Cohorts.CompileSharedCohorts | rustmatch/src/nfa.rs:268-370 | Two roots in one database representing the patterns; a common prefix is published if and only if at least 256 patterns bear assertions and all of them share it; none if and only if the ids do not suffice |
| CohortScan.NoAssertionReachable | rustmatch/src/nfa.rs:268-370 | No assertion edge is reachable from the assertion-free root |
| CohortScan.TerminalsPartition | rustmatch/src/nfa.rs:268-370 | Each pattern is accepted from exactly one of the two roots |
| CohortScan.ScanBagViews | rustmatch/src/api/cohort_view_runtime.rs:264-326 | Scanning both views loses and duplicates nothing |
| CohortScan.ScanAssertionPrefix | rustmatch/src/prefilter.rs:328-349 | Adds exactly the starts of a range that carry the prefix |
| CohortScan.PlanAssertionPrefix | rustmatch/src/prefilter.rs:161-215 | Exactly when the plan is refused and why, density included; otherwise it holds exactly the starts carrying the prefix |
| CohortScan.PrefixlessIsSilent | rustmatch/src/engine.rs:160-201 | A start without the common prefix has no event in the assertion-bearing view |
| CohortScan.ScanPrefixView | rustmatch/src/engine.rs:160-201 | The shortcut makes the calls of the full view and counts exactly the starts that carry the prefix as scanned, the rest as skipped |
| CohortScan.BuildCohortMatcher | rustmatch/src/api/cohort_view_runtime.rs:335-372 | How the budget is split between the views, that nothing of it is lost, and that it fails exactly if the ids do not suffice |
| CohortScan.ScanBuffered | rustmatch/src/api/cohort_view_runtime.rs:264-326 | Both views together deliver the multiset the ordinary matcher delivers, for every budget split and switch |
| Parallel.StepKeeps | rustmatch/src/api.rs:757-854 | Every step of the caller or of any worker keeps the invariant |
| Parallel.EveryRun | rustmatch/src/api.rs:757-854 | Under every interleaving: what is delivered is always a prefix of the partitions' events in partition order; nothing is delivered unless every partition succeeded; at the end the verdict is the expected one, everything or nothing was delivered, and every spawned worker was joined |
| Parallel.SuccessIs | rustmatch/src/api.rs:822-853 | The verdict is success exactly if no spawn failed and no partition errored or panicked |
| Parallel.NeverStuck | rustmatch/src/api.rs:757-854 | A scan that is not over can always take a step |
| Parallel.StepsRunOut | rustmatch/src/api.rs:757-854 | Every step lowers a natural number |
| Parallel.RunsAreBounded | rustmatch/src/api.rs:757-854 | No schedule is longer than a bound fixed at the start |
| Parallel.SuccessDeliversAll | rustmatch/src/api.rs:983-989 | A successful parallel scan delivers exactly the registered patterns' events |

## Left out

- CompiledMeaning.NoMatchAdded: well-shapedness is sufficient, not necessary: `u*|u` is not well shaped and still exact. Exactness of one expression is a language equality between it and its reading; it is decided here for the families `u*|text` and `(u*v)?` (`Reentry.RunOrTextExact`, `Reentry.OptionalStarExact`) and characterised for all by `Reading.ReadMeans`.
- CompiledMeaning.NoMatchLost: excludes empty sequence nodes, for which it is false (`Reentry.EmptySequenceIsLost`) and which no constructor builds.
- Contract.ScanBagIsContract: for well-shaped patterns only, because the code does not meet the contract for others.
- HirFacts.NullableIsExact: assumes bounds in order, which the parser guarantees; likewise `MinimumIsExact` and `CanConsumeIsExact`.
- HirFacts.SpelledMatches: not for assertions, whose truth depends on the text around the word.
- MatcherApi.Scan: visits partitions one after another; interleavings, spawn failures and panics of partition workers are in module Parallel.
- LiteralFilter.OneUnitApart: says nothing about windows that differ in more than one unit, which can collide; likewise `Cache.HashesDiffer` about sets that differ in more.
- SharedCandidate.ScanShards: visits shards one after another; their words are disjoint. A shard that panics is not modelled.
- Builder.Deliver: exactness is per pattern and only for trees in which no real choice and nothing optional can begin with an unbounded loop, because the code does not meet the contract for others.
- The Java case-folding table (rustmatch/src/case_fold.rs) is not part of this model; the parser takes it as a parameter.
- Decoding UTF-8 sources to UTF-16, error messages, and position overflow errors.
- Retained-byte accounting and all scan counters except scanned and skipped starts.
- Delivery to a sink that panics: events are returned as a sequence.
- `prefix_mappings` and other test-only members, and the allocating reference versions of the start table.
- Cohort diagnostics (rustmatch/src/cohort.rs) and the older partitioned cohort runtime (rustmatch/src/api/cohort_runtime.rs).
- Intrinsics, alignment and pointer casts of the kernel: lanes are sequences, and the 32-bit view of the table is a definition.
- Benchmarks, compatibility drivers, fuzzing and repository tooling.
