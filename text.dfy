/** String helpers shared by the shell and cache modules. */
module Text {

  /** Python's `s.find(c, start)`: the first index at or after `start` that
      holds `c`, or -1 when there is none (also when `start` is past the end). */
  function Find(s: string, c: char, start: nat): (k: int)
    ensures k == -1 || (start <= k < |s| && s[k] == c)
    ensures k == -1 ==> forall i :: start <= i < |s| ==> s[i] != c
    ensures k != -1 ==> forall i :: start <= i < k ==> s[i] != c
    decreases |s| - start
  {
    if start >= |s| then -1
    else if s[start] == c then start
    else Find(s, c, start + 1)
  }

  /** Number of occurrences of `c` in `s` (Python's `s.count(c)`). */
  function Count(s: string, c: char): nat
  {
    if s == [] then 0 else (if s[0] == c then 1 else 0) + Count(s[1..], c)
  }

  /** `''.join(parts)`. */
  function Concat(parts: seq<string>): string
  {
    if parts == [] then "" else parts[0] + Concat(parts[1..])
  }

  lemma {:induction false} ConcatAppend(a: seq<string>, b: seq<string>)
    ensures Concat(a + b) == Concat(a) + Concat(b)
  {
    if a != [] {
      assert (a + b)[1..] == a[1..] + b;
      ConcatAppend(a[1..], b);
    } else {
      assert a + b == b;
    }
  }

  /** A nonempty sequence is its front followed by its last element. */
  lemma SnocSplit<T>(s: seq<T>)
    requires s != []
    ensures s[..|s| - 1] + [s[|s| - 1]] == s
  {
  }
}
