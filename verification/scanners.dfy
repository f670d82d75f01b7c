/**
 The three regular expressions of `parseFunction` as abstract scanners, and the
 opaque literal evaluator `evalPhp`.

 A scanner is any function whose output obeys the well-formedness the pattern
 guarantees: matches are in bounds, really occur in the scanned text at their
 index, are ordered and do not overlap (a global `exec` loop never returns
 overlapping matches), and their groups have the shape the pattern forces.
 The resolver and every property about it take those guarantees as a
 precondition (`ScannersWellFormed`).
 */
module Scanners {
  import opened Wrappers
  import Registry

  /** `[@A-Za-z0-9_]`, the callee-name character class. */
  predicate IsNameChar(c: char) {
    c == '@' || c == '_' || ('A' <= c <= 'Z') || ('a' <= c <= 'z') || ('0' <= c <= '9')
  }

  /** `[@A-Za-z0-9_]+` */
  predicate IsName(s: string) {
    |s| > 0 && forall i :: 0 <= i < |s| ==> IsNameChar(s[i])
  }

  /** A callee the call pattern can produce: a name, and a class prefix only
      from the registry (unregistered classes never qualify a call). */
  predicate IsCallee(cls: Option<string>, name: string) {
    IsName(name) && (cls.Some? ==> Registry.IsRegistryClass(cls.value))
  }

  /** The characters JavaScript's `\s` stands for: the ASCII white space, the
      no-break and Unicode space separators, the line and paragraph separators
      and the byte-order mark. */
  predicate IsSpace(c: char) {
    || c == ' ' || c == '\t' || c == '\n' || c == '\r' || c == '\U{000B}' || c == '\U{000C}'
    || c == '\U{00A0}' || c == '\U{1680}' || ('\U{2000}' <= c <= '\U{200A}')
    || c == '\U{2028}' || c == '\U{2029}' || c == '\U{202F}' || c == '\U{205F}'
    || c == '\U{3000}' || c == '\U{FEFF}'
  }

  /** One match of the call pattern `((Class::)?(name))((\()(args)(\)|$))`.
      Only the groups are stored; `match[0]` and `match[1]` are derived from them
      and `match[6]` is always the single character `(`. */
  datatype CallMatch = CallMatch(index: nat, cls: Option<string>, name: string, args: string, closed: bool)
  {
    /** `match[1]`: the optional `Class::` prefix followed by the callee name. */
    function Head(): string {
      (if cls.Some? then cls.value + "::" else "") + name
    }

    /** `match[0]`: the whole matched call; an unterminated call has no `)`. */
    function Whole(): string {
      Head() + "(" + args + (if closed then ")" else "")
    }

    /** One past the last matched character. */
    function End(): nat {
      index + |Whole()|
    }
  }

  /** What the call pattern guarantees of one match found in `text`. */
  predicate CallMatchOk(text: string, m: CallMatch) {
    && m.End() <= |text|
    && text[m.index..m.End()] == m.Whole()
    && IsCallee(m.cls, m.name)
    && (!m.closed ==> m.End() == |text|)
  }

  /** What a global `exec` loop over the call pattern guarantees of all its matches. */
  predicate CallsWellFormed(text: string, ms: seq<CallMatch>) {
    && (forall i :: 0 <= i < |ms| ==> CallMatchOk(text, ms[i]))
    && (forall i, j :: 0 <= i < j < |ms| ==> ms[i].End() <= ms[j].index)
  }

  /** A match of `\((header)(body)\}` where `header` is
      `([\s\S]*\,)?\s*function\s*\(.*\)\s*\{`: group 1 is the header, group 3 the body. */
  datatype ClosureMatch = ClosureMatch(index: nat, header: string, body: string)
  {
    function Whole(): string {
      "(" + header + body + "}"
    }

    function End(): nat {
      index + |Whole()|
    }
  }

  /** What the inline-function pattern guarantees of its first match in `text`. */
  predicate ClosureOk(text: string, c: ClosureMatch) {
    && c.End() <= |text|
    && text[c.index..c.End()] == c.Whole()
    && |c.header| > 0
    && c.header[|c.header| - 1] == '{'
  }

  /** `(\s*\,\s*)?`: empty, or exactly one comma surrounded by white space. */
  predicate IsSeparator(s: string) {
    |s| == 0 || exists k :: 0 <= k < |s| && s[k] == ',' && forall j :: 0 <= j < |s| && j != k ==> IsSpace(s[j])
  }

  /** The literal alternatives of the argument pattern all start with `[`, `array`,
      a double quote or a single quote: bare numbers and variables are never captured. */
  predicate IsLiteralStart(s: string) {
    |s| > 0 && (s[0] == '[' || s[0] == '"' || s[0] == '\'' || (|s| >= 5 && s[..5] == "array"))
  }

  /** One match of the argument pattern: `match2[0]` is the separator group
      followed by `match2[3]`, the captured literal. */
  datatype ParamMatch = ParamMatch(index: nat, sep: string, literal: string)
  {
    function Whole(): string {
      sep + literal
    }

    function End(): nat {
      index + |Whole()|
    }
  }

  predicate ParamMatchOk(text: string, pm: ParamMatch) {
    && pm.End() <= |text|
    && text[pm.index..pm.End()] == pm.Whole()
    && IsSeparator(pm.sep)
    && IsLiteralStart(pm.literal)
  }

  /** What a global `exec` loop over the argument pattern guarantees of all its matches. */
  predicate ParamsWellFormed(text: string, pms: seq<ParamMatch>) {
    && (forall i :: 0 <= i < |pms| ==> ParamMatchOk(text, pms[i]))
    && (forall i, j :: 0 <= i < j < |pms| ==> pms[i].End() <= pms[j].index)
  }

  type CallScanner = string -> seq<CallMatch>

  type ClosureScanner = string -> Option<ClosureMatch>

  type ParamScanner = string -> seq<ParamMatch>

  /** The node value `evalPhp` reads off the parsed expression; which one the
      foreign parser produces for a given text is outside this model. `PhpOther`
      stands for every value of another shape, such as the list of parts of an
      interpolated string like `"Hello $name"`. */
  datatype PhpValue = PhpString(s: string) | PhpNumber(digits: string) | PhpBool(b: bool) | PhpNull | PhpOther

  /** The collaborators of the resolver: the call pattern, the inline-function
      pattern, the argument pattern, and `evalPhp` (`None` for `undefined`). */
  datatype Scanners = Scanners(
    calls: CallScanner,
    closure: ClosureScanner,
    params: ParamScanner,
    eval: string -> Option<PhpValue>)

  /** Every scanner keeps, on every text, the guarantees of its pattern. */
  ghost predicate ScannersWellFormed(sc: Scanners) {
    && (forall t :: CallsWellFormed(t, sc.calls(t)))
    && (forall t :: sc.closure(t).Some? ==> ClosureOk(t, sc.closure(t).value))
    && (forall t :: ParamsWellFormed(t, sc.params(t)))
  }

  /** `match[7]` is strictly shorter than the match, so strictly shorter than the scanned text. */
  lemma ArgsShorterThanText(text: string, m: CallMatch)
    requires CallMatchOk(text, m)
    ensures |m.args| < |m.Whole()| <= |text|
  {
  }

  /** A closure body is strictly shorter than the text it was found in. */
  lemma BodyShorterThanText(text: string, c: ClosureMatch)
    requires ClosureOk(text, c)
    ensures |c.body| < |text|
  {
  }
}
