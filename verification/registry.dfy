/**
 The registry of recognised call families (`Helpers.tags`) and the class-name
 alternation that `parseFunction` splices into its call pattern.
 */
module Registry {

  /** One entry of the registry: the classes that may prefix `Class::name(...)`
      and the bare helper functions of the family. */
  datatype Tag = Tag(key: string, classes: seq<string>, functions: seq<string>)

  /** The registry, in declaration order (object keys iterate in insertion order). */
  const Tags: seq<Tag> := [
    Tag("config", ["Config"], ["config"]),
    Tag("mix", [], ["mix"]),
    Tag("route", ["Route"], ["route", "signedRoute"]),
    Tag("trans", ["Lang"], ["__", "trans", "@lang"]),
    Tag("validation", ["Validator"], ["validate", "sometimes", "rules"]),
    Tag("view", ["View"], ["view", "markdown", "links", "@extends", "@component", "@include", "@each"]),
    Tag("env", [], ["env"]),
    Tag("auth", ["Gate"], ["can", "@can", "@cannot", "@canany"]),
    Tag("asset", [], ["asset"]),
    Tag("model", [], [])
  ]

  /** `c` is listed as a class of some registry entry. */
  predicate IsRegistryClass(c: string) {
    exists i :: 0 <= i < |Tags| && c in Tags[i].classes
  }

  /** The classes of `tags`, concatenated in registry order (the nested `for..in` loops). */
  function ClassesOf(tags: seq<Tag>): seq<string> {
    if |tags| == 0 then [] else tags[0].classes + ClassesOf(tags[1..])
  }

  /** The flattened list holds exactly the classes of the entries. */
  lemma {:induction false} ClassesOfMembership(tags: seq<Tag>, c: string)
    ensures c in ClassesOf(tags) <==> exists i :: 0 <= i < |tags| && c in tags[i].classes
    decreases |tags|
  {
    if |tags| > 0 {
      ClassesOfMembership(tags[1..], c);
      if c in ClassesOf(tags[1..]) {
        var i :| 0 <= i < |tags[1..]| && c in tags[1..][i].classes;
        assert c in tags[i + 1].classes;
      }
      if i :| 1 <= i < |tags| && c in tags[i].classes {
        assert c in tags[1..][i - 1].classes;
      }
    }
  }

  /** A class of the flattened list is a class of some entry, so it has whatever
      property every entry's classes have. */
  lemma {:induction false} ClassesOfNoSeparator(tags: seq<Tag>, sep: char)
    requires forall i, j :: 0 <= i < |tags| && 0 <= j < |tags[i].classes| ==> sep !in tags[i].classes[j]
    ensures forall k :: 0 <= k < |ClassesOf(tags)| ==> sep !in ClassesOf(tags)[k]
    decreases |tags|
  {
    if |tags| > 0 {
      ClassesOfNoSeparator(tags[1..], sep);
      var cs := ClassesOf(tags);
      forall k | 0 <= k < |cs| ensures sep !in cs[k] {
        if k >= |tags[0].classes| {
          assert cs[k] == ClassesOf(tags[1..])[k - |tags[0].classes|];
        }
      }
    }
  }

  /** The class list spliced into the call pattern. */
  function RegistryClasses(): seq<string> {
    ClassesOf(Tags)
  }

  /** The registry contributes exactly these six class prefixes, in this order;
      the families without classes (mix, env, asset, model) contribute none. */
  lemma RegistryClassesAre()
    ensures RegistryClasses() == ["Config", "Route", "Lang", "Validator", "View", "Gate"]
  {
  }

  /** No class of any registry entry contains `|`. */
  lemma TagClassesHaveNoBar()
    ensures forall i, j :: 0 <= i < |Tags| && 0 <= j < |Tags[i].classes| ==> '|' !in Tags[i].classes[j]
  {
  }

  /** `xs.join(sep)` for a one-character separator. */
  function Join(xs: seq<string>, sep: char): string
  {
    if |xs| == 0 then ""
    else if |xs| == 1 then xs[0]
    else xs[0] + [sep] + Join(xs[1..], sep)
  }

  /** `s.split(sep)` for a one-character separator: the maximal runs between separators. */
  function Split(s: string, sep: char): (parts: seq<string>)
    ensures |parts| >= 1
    ensures forall i :: 0 <= i < |parts| ==> sep !in parts[i]
    decreases |s|
  {
    if |s| == 0 then [""]
    else if s[0] == sep then [""] + Split(s[1..], sep)
    else
      var t := Split(s[1..], sep);
      [[s[0]] + t[0]] + t[1..]
  }

  lemma {:induction false} SplitNoSeparator(x: string, sep: char)
    requires sep !in x
    ensures Split(x, sep) == [x]
    decreases |x|
  {
    if |x| > 0 {
      assert x[0] != sep;
      SplitNoSeparator(x[1..], sep);
      assert [x[0]] + x[1..] == x;
    }
  }

  lemma {:induction false} SplitAtFirstSeparator(x: string, sep: char, rest: string)
    requires sep !in x
    ensures Split(x + [sep] + rest, sep) == [x] + Split(rest, sep)
    decreases |x|
  {
    var s := x + [sep] + rest;
    if |x| == 0 {
      assert s[0] == sep && s[1..] == rest;
    } else {
      assert s[0] == x[0] && s[0] != sep;
      assert s[1..] == x[1..] + [sep] + rest;
      SplitAtFirstSeparator(x[1..], sep, rest);
      assert [x[0]] + x[1..] == x;
    }
  }

  /** Joining alternatives that do not contain the separator and splitting the
      result again gives back exactly the alternatives. */
  lemma {:induction false} SplitJoin(xs: seq<string>, sep: char)
    requires |xs| >= 1
    requires forall i :: 0 <= i < |xs| ==> sep !in xs[i]
    ensures Split(Join(xs, sep), sep) == xs
    decreases |xs|
  {
    if |xs| == 1 {
      SplitNoSeparator(xs[0], sep);
    } else {
      SplitJoin(xs[1..], sep);
      SplitAtFirstSeparator(xs[0], sep, Join(xs[1..], sep));
      assert [xs[0]] + xs[1..] == xs;
    }
  }

  /** The `Config|Route|...` alternation of the call pattern. */
  function ClassAlternation(): string {
    Join(RegistryClasses(), '|')
  }

  /** Splitting the alternation built from any registry whose classes avoid the
      separator gives back its class list, so the alternatives are exactly the
      classes some entry lists. */
  lemma AlternationOfClasses(tags: seq<Tag>, sep: char)
    requires forall i, j :: 0 <= i < |tags| && 0 <= j < |tags[i].classes| ==> sep !in tags[i].classes[j]
    requires exists i :: 0 <= i < |tags| && |tags[i].classes| > 0
    ensures Split(Join(ClassesOf(tags), sep), sep) == ClassesOf(tags)
    ensures forall c :: c in Split(Join(ClassesOf(tags), sep), sep) <==> exists i :: 0 <= i < |tags| && c in tags[i].classes
  {
    ClassesOfNoSeparator(tags, sep);
    var i :| 0 <= i < |tags| && |tags[i].classes| > 0;
    assert |ClassesOf(tags)| >= 1 by {
      ClassesOfMembership(tags, tags[i].classes[0]);
    }
    SplitJoin(ClassesOf(tags), sep);
    forall c ensures c in ClassesOf(tags) <==> exists i :: 0 <= i < |tags| && c in tags[i].classes {
      ClassesOfMembership(tags, c);
    }
  }

  /** The alternatives of the spliced alternation are exactly the registry
      classes: a `Class::` prefix is recognised if and only if some registry entry
      lists that class. */
  lemma AlternativesAreRegistryClasses()
    ensures Split(ClassAlternation(), '|') == RegistryClasses()
    ensures Split(ClassAlternation(), '|') == ["Config", "Route", "Lang", "Validator", "View", "Gate"]
    ensures forall c :: c in Split(ClassAlternation(), '|') <==> IsRegistryClass(c)
  {
    RegistryClassesAre();
    TagClassesHaveNoBar();
    assert |Tags[0].classes| > 0;
    AlternationOfClasses(Tags, '|');
  }
}
