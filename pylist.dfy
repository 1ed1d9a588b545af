/** Python's `list.insert(i, x)`, the positional insertion `by_group` relies on. */
module PyList {

  /**
   * Where `list.insert(i, x)` puts `x` in a list of length `n`: a negative index
   * counts from the end and stops at the front, an index past the end appends.
   */
  function InsertPosition(n: nat, i: int): (k: nat)
    ensures k <= n
  {
    if i < 0 then (if n + i < 0 then 0 else n + i)
    else if i > n then n
    else i
  }

  /**
   * The list `s` after `s.insert(i, x)`: one element longer, with `x` at the
   * position `list.insert` uses and the elements before and after it kept in
   * order.
   */
  function PyInsert<T>(s: seq<T>, i: int, x: T): (r: seq<T>)
    ensures |r| == |s| + 1
    ensures var k := InsertPosition(|s|, i);
            r[k] == x && r[..k] == s[..k] && r[k + 1..] == s[k..]
  {
    var k := InsertPosition(|s|, i);
    var r := s[..k] + [x] + s[k..];
    assert r[k] == x && r[..k] == s[..k] && r[k + 1..] == s[k..];
    r
  }

  /** The list holds the same elements as before, plus `x`. */
  lemma PyInsertCount<T>(s: seq<T>, i: int, x: T)
    ensures multiset(PyInsert(s, i, x)) == multiset(s) + multiset{x}
  {
    var k := InsertPosition(|s|, i);
    var r := PyInsert(s, i, x);
    assert r == r[..k] + [x] + r[k + 1..];
    assert s == s[..k] + s[k..];
  }

  /** An index at or past the end appends. */
  lemma PyInsertPastEnd<T>(s: seq<T>, i: int, x: T)
    requires i >= |s|
    ensures PyInsert(s, i, x) == s + [x]
  {
    var r := PyInsert(s, i, x);
    assert r == r[..|s|] + [x];
  }

  /** An index at or before minus the length prepends. */
  lemma PyInsertBeforeStart<T>(s: seq<T>, i: int, x: T)
    requires i <= -|s|
    ensures PyInsert(s, i, x) == [x] + s
  {
    var r := PyInsert(s, i, x);
    assert r == [x] + r[1..];
  }

  /** A negative index within the list counts from its end. */
  lemma PyInsertFromEnd<T>(s: seq<T>, i: int, x: T)
    requires -|s| <= i < 0
    ensures PyInsert(s, i, x)[|s| + i] == x
    ensures PyInsert(s, i, x)[..|s| + i] == s[..|s| + i]
    ensures PyInsert(s, i, x)[|s| + i + 1..] == s[|s| + i..]
  {
  }

  /**
   * Inserting at index 0, 0 and then 1 into an empty list: the second element
   * goes in front of the first, the third between them.
   */
  lemma PyInsertTies<T>(a: T, b: T, c: T)
    ensures PyInsert([], 0, a) == [a]
    ensures PyInsert([a], 0, b) == [b, a]
    ensures PyInsert([b, a], 1, c) == [b, c, a]
  {
    PyInsertPastEnd([], 0, a);
    var two := PyInsert([a], 0, b);
    assert two == [two[0]] + two[1..];
    var three := PyInsert([b, a], 1, c);
    assert three == three[..1] + [three[1]] + three[2..];
  }
}
