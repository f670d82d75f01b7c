# Call-site resolver of the Laravel editor helpers, in Dafny

This project models `Helpers.parseFunction` from `src/helpers.ts`. It is the
cursor-aware resolver behind the extension's completions. Given a PHP/Blade
text and a cursor offset, it finds the call `[Class::]name(args)` under the
cursor and reports the following:

- the call's class and bare function name;
- the argument texts, and what `evalPhp` makes of each;
- the index of the argument under the cursor.

It descends into inline closures. It prefers a call nested in the argument
list. It remembers its last answer in a single-slot cache. The model also
covers the `arrayUnique` filter callback of the same file.

The model is functional. The cache slot is an explicit input and output, so one
resolution is the pure function
`ParseFunction(scanners, text, position, level, slot) -> Step(answer, slot')`.
The three regular expressions of the resolver are abstract scanners. They are
fields of a `Scanners` record, with `evalPhp` as an opaque
`string -> Option<PhpValue>`.

`ScannersWellFormed` states what the patterns guarantee of their matches:

- matches are in bounds and really occur at their index;
- matches are ordered and do not overlap;
- a class prefix comes from the registry;
- an unterminated call runs to the end of the text;
- a closure header ends in `{`;
- a captured argument starts like a literal.

Everything the resolver does with the match records is modelled concretely:

- the window;
- the cache key;
- the depth cap;
- the half-open containment test;
- both cursor shifts;
- the nested-call test with its length-4 threshold;
- the closed-span argument test;
- the result record.

Termination is proved on the length of the scanned text. The closure body and
the argument text are both strictly shorter than the window, and the
nested-argument branch restarts at level 0. `ParseFunction`, `Scan` (the
`exec` loop as a fold) and `HandleMatch` (one loop body) are mutually
recursive. Their lexicographic measure is `|text|, 2, 0` / `|w|, 1, remaining
matches` / `|w|, 0, 0`.

Files:

- `wrappers.dfy`: `Option`, standing for `null`/`undefined`.
- `registry.dfy`: the `tags` registry, the flattened class list and the
  `Config|Route|…` alternation spliced into the call pattern.
- `scanners.dfy`: match records, scanner well-formedness and literal values.
- `window.dfy`: the 400-character window and the rebased cursor.
- `arguments.dfy`: `paramIndex`, the captures, `evalPhp` over them, and the
  result record.
- `resolver.dfy`: `ParseFunction`, `Scan`, `HandleMatch` and the cache slot.
- `resolver_properties.dfy`: selection, closure descent, nested-call
  precedence, the result record and the slot discipline.
- `array_unique.dfy`: `arrayUnique` and the deduplicating filter it serves.

The cache slot is read and written at different levels:

- **Read at every level.** The lookup at `src/helpers.ts:243` has no level
  test, so closure bodies and nested argument texts are looked up too.
- **Written only at level 0.** The write at `src/helpers.ts:280` happens only
  at level 0. That includes the nested-argument recursion, which runs at the
  default level 0 (`src/helpers.ts:257`).
- **Written only for a match.** The write sits inside the handling of a match
  that holds the cursor. A miss with no such match leaves the slot as it was.

The cursor shift for a closure body (`src/helpers.ts:249`) adds the length of
the closure match's first group to the start of the argument text. It does not
add the closure match's own index. `ResolverProperties.ClosureCoordinates`
proves that the shift lands on the true start of the body exactly when the
closure match begins at the call's own `(`. The model keeps the shift as
written.

## Model

| member | source | states |
|---|---|---|
| Window.WindowText | src/helpers.ts:238 | The scanned text is at most 400 characters and no longer than the input. It is empty when `max(0, position-200)` is at or past the end. Otherwise it is the longest slice of at most 400 characters starting at that offset. |
| Window.LocalPosition | src/helpers.ts:239 | The rebased cursor is at most 200. It is exactly 200 whenever the input position is at least 200, and unchanged below 200. |
| Window.CursorKeepsItsCharacter | src/helpers.ts:238-239 | A cursor inside the text lands inside the window, on the same character. |
| Window.WindowIsIdempotent | src/helpers.ts:238-239 | Windowing the window at the rebased cursor gives the same window and cursor again, so the cache key of a query is stable. |
| Registry.ClassesOf | src/helpers.ts:227-232 | The nested `for..in` loops that push every class of every entry, in registry order. It has no contract of its own: `Registry.ClassesOfMembership` states its meaning. |
| Registry.ClassesOfMembership | src/helpers.ts:227-232 | A string is in the flattened class list iff some registry entry lists it as a class. |
| Registry.Join | src/helpers.ts:233 | `classes.join` with a one-character separator, the bar in the call pattern. It has no contract of its own: `Registry.SplitJoin` states that splitting undoes it. |
| Registry.SplitJoin | src/helpers.ts:233 | Joining a non-empty list of names that do not contain the separator, then splitting on that separator, gives the names back. |
| Registry.AlternationOfClasses | src/helpers.ts:227-233 | For any registry whose classes avoid the separator and that lists at least one class, splitting the joined class list returns that list. Its alternatives are exactly the classes some entry lists. |
| Registry.AlternativesAreRegistryClasses | src/helpers.ts:227-233 | The alternatives of the spliced class alternation are exactly the registry classes in order. A class prefix is recognised iff the registry lists it. |
| Scanners.ArgsShorterThanText | src/helpers.ts:233 | The argument text of a call match is strictly shorter than the match, and so shorter than the scanned window. This is the termination measure of the nested-argument recursion. |
| Scanners.BodyShorterThanText | src/helpers.ts:236 | A closure body is strictly shorter than the call it was found in. This is the termination measure of the closure recursion. |
| Resolver.ParseFunction | src/helpers.ts:225-287 | A cache hit returns the stored answer, `null` included, with the slot unchanged and no scan. A miss at level 6 or more returns `null` and leaves the slot alone. Every answer is a well-formed call site: a registry class, a name, one value per captured argument, and a `paramIndex` naming a captured argument. The slot holds only such answers. |
| Resolver.Scan | src/helpers.ts:246-284 | The `exec` loop as a fold over the matches. Started from a well-formed answer and slot, it ends with a well-formed answer and slot. Any slot it writes is for a text no longer than the window. What it computes is stated by `ScanSkips` and `ScanReaches`. |
| Resolver.HandleMatch | src/helpers.ts:247-283 | The loop body for a match that holds the cursor. It keeps the answer and the slot well formed, and writes only entries for texts no longer than the window. |
| Resolver.Store | src/helpers.ts:280-282 | At level 0, a later lookup of this window and cursor hits and returns this answer, and no other key hits, because the slot holds one entry. At any other level the slot is unchanged. |
| ResolverProperties.AtMostOneCallContains | src/helpers.ts:246-247 | At most one call match holds the cursor, because matches of the global scan do not overlap. |
| ResolverProperties.ScanSkips | src/helpers.ts:246-247 | Matches that do not hold the cursor leave the answer and the slot as they are. |
| ResolverProperties.NoEnclosingCallGivesNull | src/helpers.ts:226-247 | On a miss below the depth cap with no match holding the cursor, the answer is `null` and the slot is unchanged. |
| ResolverProperties.EnclosingCallDecides | src/helpers.ts:246-283 | On a miss below the depth cap, the answer and the slot are those of handling the one match that holds the cursor, whatever the other matches are. |
| ResolverProperties.ClosureDescent | src/helpers.ts:248-249 | When that match is an inline closure, the answer is exactly the resolution of the closure body at `level + 1`. The cursor is shifted by the call's index, its head, its `(` and the closure header. The slot then holds this query's own entry at level 0, or else what the inner resolution left. |
| ResolverProperties.NestedCallPrecedence | src/helpers.ts:254-258 | When the argument text has at least 4 characters and resolves at level 0 to a call, that inner step is returned unchanged. No outer record is built and no outer slot write happens. |
| ResolverProperties.OuterCallSite | src/helpers.ts:261-282 | Otherwise the answer is the call itself, with: its class and bare name; the captured argument texts in scan order; `evalPhp` of each; and the last argument whose closed span holds the shifted cursor. At level 0 the slot then holds this query and answer. |
| ResolverProperties.ArgsCoordinates | src/helpers.ts:254 | The cursor shifted by `index + head + 1` points at the same character of the argument text as the original cursor does in the window. |
| ResolverProperties.ClosureCoordinates | src/helpers.ts:249 | The closure body really starts after the closure header at the closure match's index. The shift the code uses equals that start iff the closure match begins at the call's `(`. |
| ResolverProperties.SlotDiscipline | src/helpers.ts:280-282 | After a resolution the slot holds one of three things: what it held before; an entry a nested resolution wrote for a strictly shorter text; or, at level 0 only, this very query's window, rebased cursor and answer. |
| ResolverProperties.RepeatedQueryHitsSlot | src/helpers.ts:243-244 | When a resolution leaves its own key in the slot, repeating the identical query returns the identical answer and slot. |
| ResolverProperties.RepeatedQueryIsStable | src/helpers.ts:243-283 | Two identical consecutive requests give identical results, whatever the slot held before. The repeat returns the same answer and leaves the same slot. This holds at every level, and also when a nested call won and the slot holds the inner call's key. |
| ResolverProperties.LevelZeroRemembers | src/helpers.ts:280-282 | A level-0 miss that reaches the call under the cursor, and is not overtaken by a nested call, stores its own answer. The next identical request is a hit. |
| Arguments.ParamIndexFrom | src/helpers.ts:261-267 | The argument loop, from any prefix state that is consistent so far, ends with the last argument whose closed span holds the cursor, or `null` when none does. |
| Arguments.ParamIndex | src/helpers.ts:261-267 | `paramIndex` is the last argument whose closed span `[index, index+length]` holds the cursor, or `null` when none does. |
| Arguments.BoundaryBelongsToNextArgument | src/helpers.ts:263 | A cursor exactly where one argument ends and the next one, separator included, begins is reported in the next argument. |
| Arguments.Captures | src/helpers.ts:261-262 | `textParameters` is built by one `push` per argument match. It has exactly one capture per match, and capture `i` is match `i`'s literal, in scan order. |
| Arguments.EvalAll | src/helpers.ts:268-271 | The `evalPhp` loop pushes one value per argument text. Value `i` is the evaluation of text `i`, and there are as many values as texts. |
| Arguments.BuildCallSite | src/helpers.ts:261-278 | The record carries the match's class and name and the captures in scan order. It has one `evalPhp` value per capture and the `paramIndex` of the shifted cursor. Every capture starts like a literal. |
| ArrayUnique.IndexOf | src/helpers.ts:94 | `indexOf` gives the first position holding the value, or -1 exactly when the value is absent. |
| ArrayUnique.IsFirstOccurrence | src/helpers.ts:93-95 | `arrayUnique` itself, `indexOf(value) === index`, for any integer index. It has no contract of its own: `ArrayUnique.FirstOccurrenceCharacterized` states its meaning. |
| ArrayUnique.FirstOccurrenceCharacterized | src/helpers.ts:93-95 | `arrayUnique(v, i, xs)` holds in two cases. Either `i` is a position of `xs` holding `v` with no earlier position holding `v`, or `i` is -1 and `v` does not occur in `xs`. |
| ArrayUnique.KeepFirstFromSpec | src/helpers.ts:93-95 | Filtering from any position with the callback keeps distinct values. It keeps exactly the values of the suffix whose first occurrence lies in that suffix. |
| ArrayUnique.KeepFirstRemovesDuplicates | src/helpers.ts:93-95 | Filtering an array with the callback yields no duplicates and exactly the values of the input. |

## Left out

- Window.WindowText: lengths and offsets count Unicode scalar values (Dafny
  `char`s). The source's `substr`, `length`, `match.index`, the 200/400
  constants and the editor offsets count UTF-16 code units. The two agree on
  texts whose characters all lie in the Basic Multilingual Plane. Beyond it, a
  character outside that plane is one position here and two in the source, so
  windows and cursors differ. A window edge or a cursor that falls inside a
  surrogate pair cannot be represented. The same holds for every offset of
  `Window.LocalPosition`, the call and argument matches and `paramIndex`.
- The regular-expression engine. The call, closure and argument patterns
  (`src/helpers.ts:233-236`) are scanners constrained only by
  `ScannersWellFormed`. These properties are weaker than the patterns: the
  balanced-parenthesis nesting limit of the call pattern, the exact argument
  grammar, and where backtracking puts each group are not modelled.
- The scanners' guarantees are a precondition. They are not proved of the
  patterns.
- The `lastIndex` state of the per-call inline-closure pattern is not modelled.
  Each resolution handles at most one match, so a left-over `lastIndex` is
  never observed.
- `evalPhp`, `parsePhp` and the `php-parser` library are not modelled. They are
  foreign code with a lazily built singleton, so they are one opaque function.
  Which `PhpValue` comes back for a given text is outside the model.
- Scanners.PhpValue: a value of a shape other than a string, number, boolean
  or null is `PhpOther`, without its contents. An example is the list of
  parts that the parser gives for an interpolated string such as
  `"Hello $name"`, which the double-quote alternative of the argument pattern
  captures. The model records that such a value came back, but not what it
  holds.
- JavaScript's `null` and `undefined` are both `None`. The source never
  distinguishes them for the values modelled here.
- The global statics are not modelled as such. The cache slot
  `Helpers.cachedParseFunction` is an explicit parameter and result, not a
  mutable static.
- `projectPath`, `resolveBasePath` and `findArtisanPath` are left out. They
  read workspace configuration and the filesystem.
- `runLaravel` and `runPhp` are left out. They run child processes and scrape
  their output.
- `getModels` is left out. It is asynchronous, uses a wall-clock TTL and reads
  JSON from a PHP process.
- `getSpacer` and `parseDocumentFunction` are left out. They are thin editor
  wrappers around the resolver.
- `relationMethods`, `wordMatchRegex` and the `functionRegex` static are left
  out. The resolver does not use them.
- The `functions` lists of the registry are kept as data only. The resolver
  reads only the `classes` lists.
- `arrayUnique` compares with `===`, modelled as Dafny equality. JavaScript's
  `NaN !== NaN` is not modelled.
