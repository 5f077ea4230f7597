/**
 * The TreeSet<Long> the query pipeline collects candidate ids in: an
 * ascending sequence without duplicates.
 */
module SortedSets {

  predicate StrictlyIncreasing(s: seq<int>) {
    forall i, j | 0 <= i < j < |s| :: s[i] < s[j]
  }

  function Elements(s: seq<int>): set<int> {
    set i | 0 <= i < |s| :: s[i]
  }

  /** TreeSet.add: x takes its place in the order, and adding an element already present changes nothing. */
  function Insert(s: seq<int>, x: int): (r: seq<int>)
    requires StrictlyIncreasing(s)
    ensures StrictlyIncreasing(r)
    ensures Elements(r) == Elements(s) + {x}
    ensures x in Elements(s) ==> r == s
    decreases |s|
  {
    if s == [] then
      ElementsCons(x, s);
      assert [x] + s == [x];
      [x]
    else if x < s[0] then
      ElementsCons(x, s);
      [x] + s
    else if x == s[0] then s
    else
      var tail := Insert(s[1..], x);
      ConsIncreasing(s[0], tail);
      ElementsCons(s[0], s[1..]);
      assert [s[0]] + s[1..] == s;
      ElementsCons(s[0], tail);
      [s[0]] + tail
  }

  /** A smaller element in front keeps a sequence ascending. */
  lemma ConsIncreasing(a: int, s: seq<int>)
    requires StrictlyIncreasing(s)
    requires forall y | y in Elements(s) :: a < y
    ensures StrictlyIncreasing([a] + s)
  {
    forall i | 0 <= i < |s|
      ensures a < s[i]
    {
      assert s[i] in Elements(s);
    }
  }

  lemma ElementsCons(a: int, s: seq<int>)
    ensures Elements([a] + s) == {a} + Elements(s)
  {
    var r := [a] + s;
    forall y | y in Elements(r) ensures y in {a} + Elements(s) {
      var i :| 0 <= i < |r| && r[i] == y;
      if i > 0 {
        assert s[i - 1] == y;
      }
    }
    forall y | y in Elements(s) ensures y in Elements(r) {
      var i :| 0 <= i < |s| && s[i] == y;
      assert r[i + 1] == y;
    }
    assert r[0] == a;
  }

  /** A larger element at the back keeps a sequence ascending and adds just itself. */
  lemma AppendGreatest(s: seq<int>, x: int)
    requires StrictlyIncreasing(s)
    requires forall i | 0 <= i < |s| :: s[i] < x
    ensures StrictlyIncreasing(s + [x])
    ensures Elements(s + [x]) == Elements(s) + {x}
  {
    var r := s + [x];
    assert r[|s|] == x;
    forall y | y in Elements(s) ensures y in Elements(r) {
      var i :| 0 <= i < |s| && s[i] == y;
      assert r[i] == y;
    }
  }

  /** Only the empty sequence has no elements. */
  lemma ElementsEmpty(s: seq<int>)
    ensures Elements(s) == {} <==> s == []
  {
    if s != [] {
      assert s[0] in Elements(s);
    }
  }

  /** The first element of a non-empty ascending set is its least element. */
  lemma FirstIsLeast(s: seq<int>)
    requires StrictlyIncreasing(s) && |s| > 0
    ensures s[0] in Elements(s)
    ensures forall y | y in Elements(s) :: s[0] <= y
  {
  }

  /** An ascending sequence holds as many distinct elements as it is long. */
  lemma {:induction false} ElementsCount(s: seq<int>)
    requires StrictlyIncreasing(s)
    ensures |Elements(s)| == |s|
    decreases |s|
  {
    if s != [] {
      ElementsCount(s[1..]);
      ElementsCons(s[0], s[1..]);
      assert [s[0]] + s[1..] == s;
      assert s[0] !in Elements(s[1..]);
    } else {
      ElementsEmpty(s);
    }
  }
}
