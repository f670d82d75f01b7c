/**
 The scanning window of `parseFunction`: `text.substr(max(0, position - 200), 400)`
 and the cursor rebased into it.
 */
module Window {

  /** Characters kept on the left of the cursor. */
  const Radius: nat := 200

  /** Maximal window length (`substr`'s length argument). */
  const Span: nat := 400

  function Min(a: int, b: int): int {
    if a <= b then a else b
  }

  /** `Math.max(0, position - 200)`: the offset subtracted from the cursor. */
  function Offset(position: int): nat {
    if position - Radius > 0 then position - Radius else 0
  }

  /** `substr(start, 400)`: empty when the start lies at or past the end,
      otherwise the longest slice from `start` of at most 400 characters. */
  function WindowText(text: string, position: int): (w: string)
    ensures |w| <= Span && |w| <= |text|
    ensures Offset(position) >= |text| ==> w == []
    ensures Offset(position) < |text| ==>
              && Offset(position) + |w| <= |text|
              && w == text[Offset(position)..Offset(position) + |w|]
              && (|w| == Span || Offset(position) + |w| == |text|)
  {
    var s := Offset(position);
    if s >= |text| then "" else text[s..Min(s + Span, |text|)]
  }

  /** The cursor in window coordinates. */
  function LocalPosition(position: int): (p: int)
    ensures p <= Radius
    ensures position >= Radius ==> p == Radius
    ensures position < Radius ==> p == position
  {
    position - Offset(position)
  }

  /** A cursor inside the text stays inside the window and still points at the
      same character. */
  lemma CursorKeepsItsCharacter(text: string, position: int)
    requires 0 <= position < |text|
    ensures 0 <= LocalPosition(position) < |WindowText(text, position)|
    ensures WindowText(text, position)[LocalPosition(position)] == text[position]
  {
  }

  /** Windowing a window at its own local cursor changes nothing, so a query made
      with the window and local cursor has the same cache key as the original one. */
  lemma WindowIsIdempotent(text: string, position: int)
    ensures WindowText(WindowText(text, position), LocalPosition(position)) == WindowText(text, position)
    ensures LocalPosition(LocalPosition(position)) == LocalPosition(position)
  {
  }
}
