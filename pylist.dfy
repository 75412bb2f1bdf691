/**
 * The two Python list operations the backend relies on, with Python's own
 * semantics: `list.remove(x)` (delete the first element equal to `x`) and
 * the open slice `s[start:]` with its treatment of negative and
 * out-of-range starts.
 */
module PyList {

  /** Index of the first occurrence of `x` in `s`. */
  function FirstIndex<T(==)>(s: seq<T>, x: T): (i: nat)
    requires x in s
    ensures i < |s| && s[i] == x && x !in s[..i]
  {
    if s[0] == x then 0
    else
      var j := FirstIndex(s[1..], x);
      assert s[1..][..j] == s[1..j + 1];
      assert s[..j + 1] == [s[0]] + s[1..j + 1];
      j + 1
  }

  /**
   * `list.remove(x)`: drops the first element equal to `x`. Python raises
   * ValueError when `x` is absent; that case is excluded by the requires.
   */
  function Remove<T(==)>(s: seq<T>, x: T): seq<T>
    requires x in s
  {
    var i := FirstIndex(s, x);
    s[..i] + s[i + 1..]
  }

  /** `list.remove` shortens the list by one and takes exactly one copy of `x` out. */
  lemma RemoveCounts<T>(s: seq<T>, x: T)
    requires x in s
    ensures |Remove(s, x)| == |s| - 1
    ensures multiset(Remove(s, x)) == multiset(s) - multiset{x}
  {
    var i := FirstIndex(s, x);
    var before, after := s[..i], s[i + 1..];
    assert s == before + [x] + after;
    assert multiset(s) == multiset(before) + multiset{x} + multiset(after);
    assert multiset(Remove(s, x)) == multiset(before) + multiset(after);
  }

  /**
   * The open slice `s[start:]` for any integer `start`: a negative start
   * counts from the end and is clamped at 0, a start past the end yields
   * the empty list.
   */
  function SliceFrom<T>(s: seq<T>, start: int): (r: seq<T>)
    ensures |r| <= |s| && r == s[|s| - |r|..]
    ensures 0 <= start ==> |r| == if start <= |s| then |s| - start else 0
    ensures start < 0 ==> |r| == if -start <= |s| then -start else |s|
  {
    if start >= 0 then
      (if start <= |s| then s[start..] else [])
    else
      (if -start <= |s| then s[|s| + start..] else s)
  }
}
