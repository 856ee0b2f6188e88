/** What several modules share. */
module Common {

  datatype Option<T> = None | Some(value: T)

  function Max(a: int, b: int): int { if a < b then b else a }

  predicate StartsWith(text: string, head: string) {
    |head| <= |text| && text[..|head|] == head
  }

  predicate EndsWith(text: string, tail: string) {
    |tail| <= |text| && text[|text| - |tail|..] == tail
  }

  lemma StartsWithExactly(text: string, head: string)
    ensures StartsWith(text, head) <==> exists rest: string :: text == head + rest
  {
    if StartsWith(text, head) {
      assert text == head + text[|head|..];
    }
  }

  lemma EndsWithExactly(text: string, tail: string)
    ensures EndsWith(text, tail) <==> exists rest: string :: text == rest + tail
  {
    if EndsWith(text, tail) {
      assert text == text[..|text| - |tail|] + tail;
    }
  }

  /** A non-empty set has a member. */
  lemma Member<T>(a: set<T>) returns (x: T)
    requires a != {}
    ensures x in a
  {
    x :| x in a;
  }
}
