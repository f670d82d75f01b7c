/**
 The argument half of `parseFunction` (the `paramsRegex` loop, the `evalPhp`
 loop and the result record), for the call that holds the cursor.
 */
module Arguments {
  import opened Wrappers
  import opened Scanners

  /** The resolved call site, the record `parseFunction` returns. */
  datatype CallSite = CallSite(
    className: Option<string>,         // `class`: the `Class::` prefix, if any
    functionName: string,              // `function`: the bare callee name
    paramIndex: Option<nat>,           // `paramIndex`: the argument holding the cursor, or null
    parameters: seq<Option<PhpValue>>, // `parameters`: evalPhp of every captured argument
    textParameters: seq<string>)       // `textParameters`: the captured argument texts

  /** The argument-loop test `paramsPosition >= index && paramsPosition <= index + length`:
      a closed span, so both ends count. */
  predicate Covers(pm: ParamMatch, position: int) {
    pm.index <= position <= pm.End()
  }

  /** `k` is the last argument whose closed span holds `position`. */
  predicate IsLastCovering(pms: seq<ParamMatch>, position: int, k: nat) {
    && k < |pms|
    && Covers(pms[k], position)
    && forall j :: k < j < |pms| ==> !Covers(pms[j], position)
  }

  /** The answer the argument loop is meant to give: the last covering argument,
      or none when no argument covers `position`. */
  predicate IsParamIndexOf(pms: seq<ParamMatch>, position: int, r: Option<nat>) {
    && (r.Some? ==> IsLastCovering(pms, position, r.value))
    && (r.None? ==> forall j :: 0 <= j < |pms| ==> !Covers(pms[j], position))
  }

  /** The `while (paramsRegex.exec(...))` loop from argument `i` on, with `acc` the
      `paramIndex` so far: every covering argument overwrites it. */
  function ParamIndexFrom(pms: seq<ParamMatch>, position: int, i: nat, acc: Option<nat>): (r: Option<nat>)
    requires i <= |pms|
    requires acc.Some? ==> acc.value < i && Covers(pms[acc.value], position)
                           && forall j :: acc.value < j < i ==> !Covers(pms[j], position)
    requires acc.None? ==> forall j :: 0 <= j < i ==> !Covers(pms[j], position)
    ensures IsParamIndexOf(pms, position, r)
    decreases |pms| - i
  {
    if i == |pms| then acc
    else ParamIndexFrom(pms, position, i + 1, if Covers(pms[i], position) then Some(i) else acc)
  }

  /** `paramIndex` after the loop. */
  function ParamIndex(pms: seq<ParamMatch>, position: int): (r: Option<nat>)
    ensures IsParamIndexOf(pms, position, r)
  {
    ParamIndexFrom(pms, position, 0, None)
  }

  /** At the point where one argument's span ends and the next one's (separator
      included) begins, the cursor belongs to the following argument. */
  lemma BoundaryBelongsToNextArgument(text: string, pms: seq<ParamMatch>, k: nat)
    requires ParamsWellFormed(text, pms)
    requires k + 1 < |pms|
    requires pms[k].End() == pms[k + 1].index
    ensures ParamIndex(pms, pms[k + 1].index) == Some(k + 1)
  {
    var p := pms[k + 1].index;
    var r := ParamIndex(pms, p);
    assert Covers(pms[k + 1], p);
    forall j | k + 1 < j < |pms|
      ensures !Covers(pms[j], p)
    {
      assert pms[k + 1].End() <= pms[j].index;
      assert |pms[k + 1].literal| > 0;
    }
  }

  /** `textParameters` after the first `n` rounds of the argument loop: one
      `push(match2[3])` per match. */
  function CapturesUpTo(pms: seq<ParamMatch>, n: nat): (ts: seq<string>)
    requires n <= |pms|
    ensures |ts| == n
    ensures forall i :: 0 <= i < n ==> ts[i] == pms[i].literal
  {
    if n == 0 then [] else CapturesUpTo(pms, n - 1) + [pms[n - 1].literal]
  }

  /** `textParameters` after the argument loop: the captures line up with the
      matches, in scan order. */
  function Captures(pms: seq<ParamMatch>): (ts: seq<string>)
    ensures |ts| == |pms|
    ensures forall i :: 0 <= i < |pms| ==> ts[i] == pms[i].literal
  {
    CapturesUpTo(pms, |pms|)
  }

  /** The first `n` rounds of the `for (let i in textParameters)` loop: one
      `push(evalPhp(...))` per argument text. */
  function EvalUpTo(eval: string -> Option<PhpValue>, ts: seq<string>, n: nat): (vs: seq<Option<PhpValue>>)
    requires n <= |ts|
    ensures |vs| == n
    ensures forall i :: 0 <= i < n ==> vs[i] == eval(ts[i])
  {
    if n == 0 then [] else EvalUpTo(eval, ts, n - 1) + [eval(ts[n - 1])]
  }

  /** `functionParametrs` after the loop: value `i` is the evaluation of text `i`. */
  function EvalAll(eval: string -> Option<PhpValue>, ts: seq<string>): (vs: seq<Option<PhpValue>>)
    ensures |vs| == |ts|
    ensures forall i :: 0 <= i < |ts| ==> vs[i] == eval(ts[i])
  {
    EvalUpTo(eval, ts, |ts|)
  }

  /** The promises a returned call site keeps, whatever path produced it. */
  predicate CallSiteWellFormed(eval: string -> Option<PhpValue>, cs: CallSite) {
    IsCallee(cs.className, cs.functionName) && ArgumentsWellFormed(eval, cs)
  }

  /** The argument part of a call site: one value per captured text, each the
      evaluation of its text, and an index that names a captured argument. */
  predicate ArgumentsWellFormed(eval: string -> Option<PhpValue>, cs: CallSite) {
    && |cs.parameters| == |cs.textParameters|
    && (forall i :: 0 <= i < |cs.textParameters| ==> cs.parameters[i] == eval(cs.textParameters[i]))
    && (forall i :: 0 <= i < |cs.textParameters| ==> IsLiteralStart(cs.textParameters[i]))
    && (cs.paramIndex.Some? ==> cs.paramIndex.value < |cs.textParameters|)
  }

  /** The record built for the call `m` with the cursor at `paramsPosition`
      relative to its argument text. */
  function BuildCallSite(sc: Scanners, m: CallMatch, paramsPosition: int): (cs: CallSite)
    requires ScannersWellFormed(sc)
    ensures cs.className == m.cls && cs.functionName == m.name
    ensures |cs.textParameters| == |sc.params(m.args)|
    ensures forall i :: 0 <= i < |cs.textParameters| ==> cs.textParameters[i] == sc.params(m.args)[i].literal
    ensures IsParamIndexOf(sc.params(m.args), paramsPosition, cs.paramIndex)
    ensures ArgumentsWellFormed(sc.eval, cs)
  {
    var pms := sc.params(m.args);
    assert ParamsWellFormed(m.args, pms);
    var ts := Captures(pms);
    assert forall i :: 0 <= i < |ts| ==> IsLiteralStart(ts[i]) by {
      forall i | 0 <= i < |ts| ensures IsLiteralStart(ts[i]) {
        assert ParamMatchOk(m.args, pms[i]);
      }
    }
    CallSite(m.cls, m.name, ParamIndex(pms, paramsPosition), EvalAll(sc.eval, ts), ts)
  }
}
