/**
 `Helpers.parseFunction`: the cursor-aware call-site resolver.

 The single cache slot (`Helpers.cachedParseFunction`) is passed in and handed
 back explicitly, so one resolution is a pure function
 `(text, position, level, slot) -> (result, slot')`.
 */
module Resolver {
  import opened Wrappers
  import opened Scanners
  import opened Window
  import opened Arguments

  /** Recursion levels at or above this refuse to scan (`level < 6`). */
  const MaxLevel: nat := 6

  /** Nested-argument recursion is only tried for argument texts at least this long. */
  const MinNestedArgs: nat := 4

  /** The contents of the cache slot: the window text, the local cursor and the answer. */
  datatype CacheEntry = CacheEntry(text: string, position: int, out: Option<CallSite>)

  /** The slot itself; `None` before the first write. */
  type Cache = Option<CacheEntry>

  /** The result of one resolution and the slot it leaves behind. */
  datatype Step = Step(out: Option<CallSite>, cache: Cache)

  /** The outcome of handling one match holding the cursor: `Exit` is the early
      `return functionInsideParameter`, `Next` lets the scan go on. */
  datatype Handled = Exit(step: Step) | Next(step: Step)

  /** The slot holds the answer for exactly this window and local cursor. */
  predicate Hit(cache: Cache, w: string, p: int) {
    cache.Some? && cache.value.text == w && cache.value.position == p
  }

  /** Every answer a resolution returns is a well-formed call site (or null). */
  predicate OutWellFormed(sc: Scanners, out: Option<CallSite>) {
    out.Some? ==> CallSiteWellFormed(sc.eval, out.value)
  }

  /** The slot only ever holds well-formed answers. */
  predicate CacheWellFormed(sc: Scanners, cache: Cache) {
    cache.Some? ==> OutWellFormed(sc, cache.value.out)
  }

  /** The slot after the `if (level === 0)` block that stores the window, the local
      cursor and the answer: at level 0 a later lookup of this key returns `out`,
      and the single slot has forgotten every other key; at any other level the
      slot is untouched. */
  function Store(level: nat, w: string, p: int, out: Option<CallSite>, cache: Cache): (c: Cache)
    ensures level == 0 ==> Hit(c, w, p) && c.value.out == out
    ensures level == 0 ==> forall w', p' :: Hit(c, w', p') ==> w' == w && p' == p
    ensures level != 0 ==> c == cache
  {
    if level == 0 then Some(CacheEntry(w, p, out)) else cache
  }

  /** The call holds the cursor: `position >= match.index && match[0] && position < match.index + match[0].length`. */
  predicate Contains(m: CallMatch, p: int) {
    m.index <= p < m.End() && |m.Whole()| > 0
  }

  /** `match.index + match[1].length + match[6].length`: where the argument text starts. */
  function ArgsShift(m: CallMatch): int {
    m.index + |m.Head()| + 1
  }

  /** `match.index + match[1].length + match[6].length + match2[1].length`: where the
      closure body is taken to start. */
  function ClosureShift(m: CallMatch, c: ClosureMatch): int {
    ArgsShift(m) + |c.header|
  }

  /** `parseFunction(text, position, level)` run against the slot `cache`. */
  function ParseFunction(sc: Scanners, text: string, position: int, level: nat, cache: Cache): (r: Step)
    requires ScannersWellFormed(sc)
    ensures CacheWellFormed(sc, cache) ==> CacheWellFormed(sc, r.cache) && OutWellFormed(sc, r.out)
    ensures r.cache == cache || (r.cache.Some? && |r.cache.value.text| <= |WindowText(text, position)|)
    ensures Hit(cache, WindowText(text, position), LocalPosition(position)) ==> r == Step(cache.value.out, cache)
    ensures !Hit(cache, WindowText(text, position), LocalPosition(position)) && level >= MaxLevel ==>
              r == Step(None, cache)
    decreases |text|, 2, 0
  {
    var w := WindowText(text, position);
    var p := LocalPosition(position);
    if Hit(cache, w, p) then Step(cache.value.out, cache)
    else if level < MaxLevel then Scan(sc, w, p, level, sc.calls(w), 0, None, cache)
    else Step(None, cache)
  }

  /** The `while ((match = functionRegex.exec(text)) !== null)` loop from match `i` on,
      with `out` and `cache` the state reached so far. */
  function Scan(sc: Scanners, w: string, p: int, level: nat, ms: seq<CallMatch>, i: nat,
                out: Option<CallSite>, cache: Cache): (r: Step)
    requires ScannersWellFormed(sc)
    requires CallsWellFormed(w, ms)
    requires i <= |ms|
    ensures CacheWellFormed(sc, cache) && OutWellFormed(sc, out) ==>
              CacheWellFormed(sc, r.cache) && OutWellFormed(sc, r.out)
    ensures r.cache == cache || (r.cache.Some? && |r.cache.value.text| <= |w|)
    decreases |w|, 1, |ms| - i
  {
    if i == |ms| then Step(out, cache)
    else if Contains(ms[i], p) then
      match HandleMatch(sc, w, p, level, ms[i], cache)
      case Exit(s) => s
      case Next(s) => Scan(sc, w, p, level, ms, i + 1, s.out, s.cache)
    else Scan(sc, w, p, level, ms, i + 1, out, cache)
  }

  /** The body of the scan loop for a match that holds the cursor. */
  function HandleMatch(sc: Scanners, w: string, p: int, level: nat, m: CallMatch, cache: Cache): (h: Handled)
    requires ScannersWellFormed(sc)
    requires CallMatchOk(w, m)
    ensures CacheWellFormed(sc, cache) ==> CacheWellFormed(sc, h.step.cache) && OutWellFormed(sc, h.step.out)
    ensures h.step.cache == cache || (h.step.cache.Some? && |h.step.cache.value.text| <= |w|)
    decreases |w|, 0, 0
  {
    ArgsShorterThanText(w, m);
    match sc.closure(m.Whole())
    case Some(c) =>
      BodyShorterThanText(m.Whole(), c);
      var inner := ParseFunction(sc, c.body, p - ClosureShift(m, c), level + 1, cache);
      Next(Step(inner.out, Store(level, w, p, inner.out, inner.cache)))
    case None =>
      var pp := p - ArgsShift(m);
      var inner := if |m.args| >= MinNestedArgs then ParseFunction(sc, m.args, pp, 0, cache) else Step(None, cache);
      if inner.out.Some? then Exit(inner)
      else
        var cs := BuildCallSite(sc, m, pp);
        Next(Step(Some(cs), Store(level, w, p, Some(cs), inner.cache)))
  }
}
