/**
 What `parseFunction` promises, stated over the whole resolution: which match
 decides the answer, how closures and nested calls take precedence, where the
 recursive calls put the cursor, and what the cache slot holds afterwards.
 */
module ResolverProperties {
  import opened Wrappers
  import opened Scanners
  import opened Window
  import opened Arguments
  import opened Resolver

  /** The call matches scanned in the window of `text` around `position`. */
  function Calls(sc: Scanners, text: string, position: int): seq<CallMatch> {
    sc.calls(WindowText(text, position))
  }

  /** The nested-argument call returns something, so it replaces the outer call. */
  predicate NestedCallWins(sc: Scanners, p: int, m: CallMatch, cache: Cache)
    requires ScannersWellFormed(sc)
  {
    && sc.closure(m.Whole()).None?
    && |m.args| >= MinNestedArgs
    && ParseFunction(sc, m.args, p - ArgsShift(m), 0, cache).out.Some?
  }

  /** Matches never overlap, so at most one of them holds the cursor. */
  lemma AtMostOneCallContains(w: string, ms: seq<CallMatch>, p: int, i: nat, j: nat)
    requires CallsWellFormed(w, ms)
    requires i < |ms| && j < |ms|
    requires Contains(ms[i], p) && Contains(ms[j], p)
    ensures i == j
  {
  }

  /** Matches that do not hold the cursor leave the scan state untouched. */
  lemma {:induction false} ScanSkips(sc: Scanners, w: string, p: int, level: nat, ms: seq<CallMatch>, i: nat,
                                     out: Option<CallSite>, cache: Cache)
    requires ScannersWellFormed(sc)
    requires CallsWellFormed(w, ms)
    requires i <= |ms|
    requires forall j :: i <= j < |ms| ==> !Contains(ms[j], p)
    ensures Scan(sc, w, p, level, ms, i, out, cache) == Step(out, cache)
    decreases |ms| - i
  {
    if i < |ms| {
      assert !Contains(ms[i], p);
      ScanSkips(sc, w, p, level, ms, i + 1, out, cache);
      assert Scan(sc, w, p, level, ms, i, out, cache) == Scan(sc, w, p, level, ms, i + 1, out, cache);
    }
  }

  /** From any point before the match holding the cursor, the scan ends with what
      handling that one match gives. */
  lemma {:induction false} ScanReaches(sc: Scanners, w: string, p: int, level: nat, ms: seq<CallMatch>,
                                       i: nat, k: nat, cache: Cache)
    requires ScannersWellFormed(sc)
    requires CallsWellFormed(w, ms)
    requires i <= k < |ms|
    requires Contains(ms[k], p)
    ensures Scan(sc, w, p, level, ms, i, None, cache) == HandleMatch(sc, w, p, level, ms[k], cache).step
    decreases k - i
  {
    if i < k {
      ScanReaches(sc, w, p, level, ms, i + 1, k, cache);
    } else {
      assert forall j :: k < j < |ms| ==> !Contains(ms[j], p);
      match HandleMatch(sc, w, p, level, ms[k], cache)
      case Exit(s) =>
      case Next(s) =>
        ScanSkips(sc, w, p, level, ms, k + 1, s.out, s.cache);
    }
  }

  /** Match selection, miss case: when no match holds the cursor the answer is
      null and the slot is left alone. */
  lemma NoEnclosingCallGivesNull(sc: Scanners, text: string, position: int, level: nat, cache: Cache)
    requires ScannersWellFormed(sc)
    requires !Hit(cache, WindowText(text, position), LocalPosition(position))
    requires level < MaxLevel
    requires forall j :: 0 <= j < |Calls(sc, text, position)| ==>
               !Contains(Calls(sc, text, position)[j], LocalPosition(position))
    ensures ParseFunction(sc, text, position, level, cache) == Step(None, cache)
  {
    var w := WindowText(text, position);
    var p := LocalPosition(position);
    var ms := sc.calls(w);
    assert ms == Calls(sc, text, position);
    assert forall j :: 0 <= j < |ms| ==> !Contains(ms[j], p);
    assert ParseFunction(sc, text, position, level, cache) == Scan(sc, w, p, level, ms, 0, None, cache);
    ScanSkips(sc, w, p, level, ms, 0, None, cache);
  }

  /** Match selection, hit case: the match holding the cursor alone decides the
      answer and the slot, whatever the other matches are. */
  lemma EnclosingCallDecides(sc: Scanners, text: string, position: int, level: nat, cache: Cache, k: nat)
    requires ScannersWellFormed(sc)
    requires !Hit(cache, WindowText(text, position), LocalPosition(position))
    requires level < MaxLevel
    requires k < |Calls(sc, text, position)|
    requires Contains(Calls(sc, text, position)[k], LocalPosition(position))
    ensures ParseFunction(sc, text, position, level, cache)
            == HandleMatch(sc, WindowText(text, position), LocalPosition(position), level,
                           Calls(sc, text, position)[k], cache).step
  {
    var w := WindowText(text, position);
    ScanReaches(sc, w, LocalPosition(position), level, sc.calls(w), 0, k, cache);
  }

  /** Closure descent: when the call holding the cursor is an inline function, the
      answer is exactly the resolution of its body one level deeper, with the
      cursor shifted by the call's head, its `(` and the closure header. */
  lemma ClosureDescent(sc: Scanners, text: string, position: int, level: nat, cache: Cache, k: nat, c: ClosureMatch)
    requires ScannersWellFormed(sc)
    requires !Hit(cache, WindowText(text, position), LocalPosition(position))
    requires level < MaxLevel
    requires k < |Calls(sc, text, position)|
    requires Contains(Calls(sc, text, position)[k], LocalPosition(position))
    requires sc.closure(Calls(sc, text, position)[k].Whole()) == Some(c)
    ensures var m := Calls(sc, text, position)[k];
            var inner := ParseFunction(sc, c.body, LocalPosition(position) - ClosureShift(m, c), level + 1, cache);
            var r := ParseFunction(sc, text, position, level, cache);
            && r.out == inner.out
            && (level == 0 ==> r.cache == Some(CacheEntry(WindowText(text, position), LocalPosition(position), inner.out)))
            && (level != 0 ==> r.cache == inner.cache)
  {
    var w := WindowText(text, position);
    var p := LocalPosition(position);
    var m := Calls(sc, text, position)[k];
    EnclosingCallDecides(sc, text, position, level, cache, k);
    HandleClosure(sc, w, p, level, m, cache, c);
    var inner := ParseFunction(sc, c.body, p - ClosureShift(m, c), level + 1, cache);
    assert ParseFunction(sc, text, position, level, cache) == Step(inner.out, Store(level, w, p, inner.out, inner.cache));
  }

  /** Handling a call that the inline-function pattern does not match. */
  lemma HandleArguments(sc: Scanners, w: string, p: int, level: nat, m: CallMatch, cache: Cache)
    requires ScannersWellFormed(sc)
    requires CallMatchOk(w, m)
    requires sc.closure(m.Whole()).None?
    ensures var pp := p - ArgsShift(m);
            var inner := if |m.args| >= MinNestedArgs then ParseFunction(sc, m.args, pp, 0, cache) else Step(None, cache);
            var cs := BuildCallSite(sc, m, pp);
            HandleMatch(sc, w, p, level, m, cache)
            == if inner.out.Some? then Exit(inner) else Next(Step(Some(cs), Store(level, w, p, Some(cs), inner.cache)))
  {
  }

  /** Handling a call that the inline-function pattern matches. */
  lemma HandleClosure(sc: Scanners, w: string, p: int, level: nat, m: CallMatch, cache: Cache, c: ClosureMatch)
    requires ScannersWellFormed(sc)
    requires CallMatchOk(w, m)
    requires sc.closure(m.Whole()) == Some(c)
    ensures var inner := ParseFunction(sc, c.body, p - ClosureShift(m, c), level + 1, cache);
            HandleMatch(sc, w, p, level, m, cache) == Next(Step(inner.out, Store(level, w, p, inner.out, inner.cache)))
  {
  }

  /** Nested-call precedence: when the argument text resolves to a call of its
      own, that inner answer (and the slot it left) is returned unchanged; no outer
      record is built and the outer slot write does not happen. */
  lemma NestedCallPrecedence(sc: Scanners, text: string, position: int, level: nat, cache: Cache, k: nat)
    requires ScannersWellFormed(sc)
    requires !Hit(cache, WindowText(text, position), LocalPosition(position))
    requires level < MaxLevel
    requires k < |Calls(sc, text, position)|
    requires Contains(Calls(sc, text, position)[k], LocalPosition(position))
    requires NestedCallWins(sc, LocalPosition(position), Calls(sc, text, position)[k], cache)
    ensures var m := Calls(sc, text, position)[k];
            ParseFunction(sc, text, position, level, cache)
            == ParseFunction(sc, m.args, LocalPosition(position) - ArgsShift(m), 0, cache)
  {
    var m := Calls(sc, text, position)[k];
    EnclosingCallDecides(sc, text, position, level, cache, k);
    HandleArguments(sc, WindowText(text, position), LocalPosition(position), level, m, cache);
  }

  /** Result record: otherwise the answer is the call holding the cursor itself,
      with its class, bare name, captured arguments, their values and the index
      of the argument under the cursor. */
  lemma OuterCallSite(sc: Scanners, text: string, position: int, level: nat, cache: Cache, k: nat)
    requires ScannersWellFormed(sc)
    requires !Hit(cache, WindowText(text, position), LocalPosition(position))
    requires level < MaxLevel
    requires k < |Calls(sc, text, position)|
    requires Contains(Calls(sc, text, position)[k], LocalPosition(position))
    requires sc.closure(Calls(sc, text, position)[k].Whole()).None?
    requires !NestedCallWins(sc, LocalPosition(position), Calls(sc, text, position)[k], cache)
    ensures var m := Calls(sc, text, position)[k];
            var pp := LocalPosition(position) - ArgsShift(m);
            var r := ParseFunction(sc, text, position, level, cache);
            && r.out.Some?
            && r.out.value.className == m.cls
            && r.out.value.functionName == m.name
            && r.out.value.textParameters == Captures(sc.params(m.args))
            && r.out.value.parameters == EvalAll(sc.eval, r.out.value.textParameters)
            && IsParamIndexOf(sc.params(m.args), pp, r.out.value.paramIndex)
            && (level == 0 ==> r.cache == Some(CacheEntry(WindowText(text, position), LocalPosition(position), r.out)))
  {
    var m := Calls(sc, text, position)[k];
    EnclosingCallDecides(sc, text, position, level, cache, k);
    HandleArguments(sc, WindowText(text, position), LocalPosition(position), level, m, cache);
  }

  /** Slot discipline for one handled match: nested resolutions only write
      entries for texts strictly shorter than the window. */
  lemma HandleMatchSlot(sc: Scanners, w: string, p: int, level: nat, m: CallMatch, cache: Cache)
    requires ScannersWellFormed(sc)
    requires CallMatchOk(w, m)
    ensures var s := HandleMatch(sc, w, p, level, m, cache).step;
            || s.cache == cache
            || (s.cache.Some? && |s.cache.value.text| < |w|)
            || (level == 0 && s.cache == Some(CacheEntry(w, p, s.out)))
  {
    ArgsShorterThanText(w, m);
    match sc.closure(m.Whole())
    case Some(c) =>
      assert ClosureOk(m.Whole(), c);
      BodyShorterThanText(m.Whole(), c);
      HandleClosure(sc, w, p, level, m, cache, c);
    case None =>
      HandleArguments(sc, w, p, level, m, cache);
  }

  /** Slot discipline: after a resolution the slot is either untouched, or holds an
      entry for a strictly shorter text written by a nested call, or (at level 0
      only) holds this very query's window, local cursor and answer. */
  lemma SlotDiscipline(sc: Scanners, text: string, position: int, level: nat, cache: Cache)
    requires ScannersWellFormed(sc)
    ensures var w := WindowText(text, position);
            var r := ParseFunction(sc, text, position, level, cache);
            || r.cache == cache
            || (r.cache.Some? && |r.cache.value.text| < |w|)
            || (level == 0 && r.cache == Some(CacheEntry(w, LocalPosition(position), r.out)))
  {
    var w := WindowText(text, position);
    var p := LocalPosition(position);
    var ms := sc.calls(w);
    assert ms == Calls(sc, text, position);
    if !Hit(cache, w, p) && level < MaxLevel {
      if k :| 0 <= k < |ms| && Contains(ms[k], p) {
        EnclosingCallDecides(sc, text, position, level, cache, k);
        HandleMatchSlot(sc, w, p, level, ms[k], cache);
      } else {
        NoEnclosingCallGivesNull(sc, text, position, level, cache);
      }
    }
  }

  /** Repeating a query whose key the slot now holds is a cache hit that returns
      the same answer and leaves the slot as it is. `RepeatedQueryIsStable`
      covers every other case. */
  lemma RepeatedQueryHitsSlot(sc: Scanners, text: string, position: int, level: nat, cache: Cache)
    requires ScannersWellFormed(sc)
    requires Hit(ParseFunction(sc, text, position, level, cache).cache, WindowText(text, position), LocalPosition(position))
    ensures var r := ParseFunction(sc, text, position, level, cache);
            ParseFunction(sc, text, position, level, r.cache) == r
  {
    SlotDiscipline(sc, text, position, level, cache);
  }

  /** Two identical consecutive requests give identical results, whatever the
      slot held before: the repeat returns the same answer and leaves the same
      slot. This holds at every level and also when a nested call won, where the
      slot holds the inner call's key rather than this query's. */
  lemma {:induction false} RepeatedQueryIsStable(sc: Scanners, text: string, position: int, level: nat, cache: Cache)
    requires ScannersWellFormed(sc)
    ensures var r := ParseFunction(sc, text, position, level, cache);
            ParseFunction(sc, text, position, level, r.cache) == r
    decreases |text|, 2
  {
    var w := WindowText(text, position);
    var p := LocalPosition(position);
    var ms := sc.calls(w);
    assert ms == Calls(sc, text, position);
    if !Hit(cache, w, p) && level < MaxLevel {
      if k :| 0 <= k < |ms| && Contains(ms[k], p) {
        EnclosingCallDecides(sc, text, position, level, cache, k);
        HandleMatchIsStable(sc, w, p, level, ms[k], cache);
        var h := HandleMatch(sc, w, p, level, ms[k], cache).step;
        if Hit(h.cache, w, p) {
          RepeatedQueryHitsSlot(sc, text, position, level, cache);
        } else {
          EnclosingCallDecides(sc, text, position, level, h.cache, k);
        }
      } else {
        NoEnclosingCallGivesNull(sc, text, position, level, cache);
      }
    }
  }

  /** Handling the match under the cursor again, from the slot the first handling
      left, gives the same step, unless that slot already answers the query. */
  lemma {:induction false} HandleMatchIsStable(sc: Scanners, w: string, p: int, level: nat, m: CallMatch, cache: Cache)
    requires ScannersWellFormed(sc)
    requires CallMatchOk(w, m)
    ensures var h := HandleMatch(sc, w, p, level, m, cache).step;
            Hit(h.cache, w, p) || HandleMatch(sc, w, p, level, m, h.cache).step == h
    decreases |w|, 1
  {
    match sc.closure(m.Whole())
    case Some(c) =>
      ClosureIsStable(sc, w, p, level, m, cache, c);
    case None =>
      ArgumentsAreStable(sc, w, p, level, m, cache);
  }

  /** The closure branch repeats: below level 0 the slot is what the body's
      resolution left, and resolving the body again from it changes nothing. */
  lemma {:induction false} ClosureIsStable(sc: Scanners, w: string, p: int, level: nat, m: CallMatch, cache: Cache, c: ClosureMatch)
    requires ScannersWellFormed(sc)
    requires CallMatchOk(w, m)
    requires sc.closure(m.Whole()) == Some(c)
    ensures var h := HandleMatch(sc, w, p, level, m, cache).step;
            Hit(h.cache, w, p) || HandleMatch(sc, w, p, level, m, h.cache).step == h
    decreases |w|, 0
  {
    assert ClosureOk(m.Whole(), c);
    BodyShorterThanText(m.Whole(), c);
    ArgsShorterThanText(w, m);
    var q := p - ClosureShift(m, c);
    var inner := ParseFunction(sc, c.body, q, level + 1, cache);
    HandleClosure(sc, w, p, level, m, cache, c);
    if level != 0 {
      RepeatedQueryIsStable(sc, c.body, q, level + 1, cache);
      HandleClosure(sc, w, p, level, m, inner.cache, c);
    }
  }

  /** The argument branch repeats: the nested resolution of the argument text
      gives the same step again, so the same branch is taken with the same result. */
  lemma {:induction false} ArgumentsAreStable(sc: Scanners, w: string, p: int, level: nat, m: CallMatch, cache: Cache)
    requires ScannersWellFormed(sc)
    requires CallMatchOk(w, m)
    requires sc.closure(m.Whole()).None?
    ensures var h := HandleMatch(sc, w, p, level, m, cache).step;
            Hit(h.cache, w, p) || HandleMatch(sc, w, p, level, m, h.cache).step == h
    decreases |w|, 0
  {
    ArgsShorterThanText(w, m);
    var pp := p - ArgsShift(m);
    HandleArguments(sc, w, p, level, m, cache);
    var h := HandleMatch(sc, w, p, level, m, cache).step;
    if |m.args| >= MinNestedArgs {
      RepeatedQueryIsStable(sc, m.args, pp, 0, cache);
      HandleArguments(sc, w, p, level, m, h.cache);
    }
  }

  /** At level 0, a miss that finds the call under the cursor and is not overtaken
      by a nested call leaves its own answer in the slot, so the next identical
      request is served from the slot. */
  lemma LevelZeroRemembers(sc: Scanners, text: string, position: int, cache: Cache, k: nat)
    requires ScannersWellFormed(sc)
    requires !Hit(cache, WindowText(text, position), LocalPosition(position))
    requires k < |Calls(sc, text, position)|
    requires Contains(Calls(sc, text, position)[k], LocalPosition(position))
    requires !NestedCallWins(sc, LocalPosition(position), Calls(sc, text, position)[k], cache)
    ensures var r := ParseFunction(sc, text, position, 0, cache);
            && Hit(r.cache, WindowText(text, position), LocalPosition(position))
            && r.cache.value.out == r.out
            && ParseFunction(sc, text, position, 0, r.cache) == r
  {
    var w := WindowText(text, position);
    var m := Calls(sc, text, position)[k];
    EnclosingCallDecides(sc, text, position, 0, cache, k);
    match sc.closure(m.Whole())
    case Some(c) =>
      HandleClosure(sc, w, LocalPosition(position), 0, m, cache, c);
    case None =>
      HandleArguments(sc, w, LocalPosition(position), 0, m, cache);
    RepeatedQueryHitsSlot(sc, text, position, 0, cache);
  }

  /** The nested-argument recursion sees the argument text in its own coordinates:
      the shifted cursor points at the same character in `match[7]` as the
      original cursor does in the window. */
  lemma ArgsCoordinates(w: string, m: CallMatch, p: int)
    requires CallMatchOk(w, m)
    requires ArgsShift(m) <= p < ArgsShift(m) + |m.args|
    ensures w[p] == m.args[p - ArgsShift(m)]
  {
    var t := p - ArgsShift(m);
    assert m.Whole()[|m.Head()| + 1 + t] == m.args[t];
    assert w[m.index..m.End()][p - m.index] == w[p];
  }

  /** The closure recursion: the body really starts right after the closure
      header, and the shift used for the cursor is that start exactly when the
      inline-function pattern matched at the call's own opening parenthesis
      (the shift ignores where inside the call the closure match begins). */
  lemma ClosureCoordinates(w: string, m: CallMatch, c: ClosureMatch, p: int)
    requires CallMatchOk(w, m)
    requires ClosureOk(m.Whole(), c)
    requires m.index + c.index + 1 + |c.header| <= p < m.index + c.index + 1 + |c.header| + |c.body|
    ensures w[p] == c.body[p - (m.index + c.index + 1 + |c.header|)]
    ensures ClosureShift(m, c) == m.index + c.index + 1 + |c.header| <==> c.index == |m.Head()|
  {
    var start := c.index + 1 + |c.header|;
    var t := p - m.index - start;
    var whole := m.Whole();
    assert c.Whole()[1 + |c.header| + t] == c.body[t];
    assert whole[c.index..c.End()] == c.Whole();
    assert whole[start + t] == c.body[t];
    assert w[m.index..m.End()] == whole;
    assert w[p] == whole[p - m.index];
    assert |m.Whole()| == |m.Head()| + 1 + |m.args| + (if m.closed then 1 else 0);
  }
}
