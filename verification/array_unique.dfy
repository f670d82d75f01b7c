/**
 `Helpers.arrayUnique`, the `Array.prototype.filter` callback that keeps the
 first occurrence of every value.
 */
module ArrayUnique {

  /** `self.indexOf(value)`: the first index holding `v`, or -1 when there is none
      (`===` on the elements is modelled as `==`). */
  function IndexOf<T(==)>(xs: seq<T>, v: T): (r: int)
    ensures -1 <= r < |xs|
    ensures r == -1 <==> v !in xs
    ensures r >= 0 ==> xs[r] == v && forall j :: 0 <= j < r ==> xs[j] != v
  {
    if |xs| == 0 then -1
    else if xs[0] == v then 0
    else
      var r := IndexOf(xs[1..], v);
      if r == -1 then -1 else r + 1
  }

  /** `arrayUnique(value, index, self)`: `self.indexOf(value) === index`. The index
      is any number, as in the source; `filter` only ever passes positions. */
  predicate IsFirstOccurrence<T(==)>(value: T, index: int, xs: seq<T>) {
    IndexOf(xs, value) == index
  }

  /** The callback holds exactly when `index` is the first position at which
      `value` occurs, or when `index` is -1 and `value` does not occur at all. */
  lemma FirstOccurrenceCharacterized<T>(value: T, index: int, xs: seq<T>)
    ensures IsFirstOccurrence(value, index, xs)
            <==> || (0 <= index < |xs| && xs[index] == value && forall j :: 0 <= j < index ==> xs[j] != value)
                 || (index == -1 && value !in xs)
  {
  }

  /** `xs.slice(i).filter(...)` with indices still counted in `xs`: the elements
      from position `i` on that the callback keeps. */
  function KeepFirstFrom<T(==)>(xs: seq<T>, i: nat): seq<T>
    requires i <= |xs|
    decreases |xs| - i
  {
    if i == |xs| then []
    else (if IsFirstOccurrence(xs[i], i, xs) then [xs[i]] else []) + KeepFirstFrom(xs, i + 1)
  }

  /** `xs.filter(Helpers.arrayUnique)`, the use the callback is written for. */
  function KeepFirst<T(==)>(xs: seq<T>): seq<T> {
    KeepFirstFrom(xs, 0)
  }

  predicate Distinct<T(==)>(s: seq<T>) {
    forall a, b :: 0 <= a < b < |s| ==> s[a] != s[b]
  }

  lemma {:induction false} KeepFirstFromSpec<T>(xs: seq<T>, i: nat)
    requires i <= |xs|
    ensures Distinct(KeepFirstFrom(xs, i))
    ensures forall v :: v in KeepFirstFrom(xs, i) <==> v in xs[i..] && IndexOf(xs, v) >= i
    decreases |xs| - i
  {
    if i < |xs| {
      KeepFirstFromSpec(xs, i + 1);
      var rest := KeepFirstFrom(xs, i + 1);
      var r := KeepFirstFrom(xs, i);
      assert xs[i..] == [xs[i]] + xs[i + 1..];
      if IsFirstOccurrence(xs[i], i, xs) {
        assert r == [xs[i]] + rest;
        assert xs[i] !in rest;
        forall a, b | 0 <= a < b < |r| ensures r[a] != r[b] {
          if a == 0 {
            assert r[b] == rest[b - 1];
          } else {
            assert r[a] == rest[a - 1] && r[b] == rest[b - 1];
          }
        }
      } else {
        assert r == rest;
      }
      forall v ensures v in r <==> v in xs[i..] && IndexOf(xs, v) >= i {
        if v == xs[i] {
          assert IndexOf(xs, v) <= i;
        }
      }
    }
  }

  /** Filtering with the callback removes exactly the repetitions: the result has
      no duplicates and holds every value of the input and nothing else. */
  lemma KeepFirstRemovesDuplicates<T>(xs: seq<T>)
    ensures Distinct(KeepFirst(xs))
    ensures forall v :: v in KeepFirst(xs) <==> v in xs
  {
    KeepFirstFromSpec(xs, 0);
    assert xs[0..] == xs;
  }
}
