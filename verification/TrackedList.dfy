/**
 * The list operations the converter applies to its ordered list of tracked
 * timezones: `Array.prototype.filter` with a "not equal to" test (removing a
 * zone), and the two `Array.prototype.splice` calls of a drag-and-drop
 * reorder (take one entry out, put it back in elsewhere).
 */
module TrackedList {

  /** Each entry occurs at most once. */
  predicate Distinct(s: seq<string>) {
    forall x | x in s :: multiset(s)[x] <= 1
  }

  /** `s.filter(y => y !== x)`: every occurrence of `x` is dropped. */
  function Without(s: seq<string>, x: string): (r: seq<string>)
    ensures x !in r
    ensures |r| <= |s|
    decreases |s|
  {
    if s == [] then []
    else (if s[0] == x then [] else [s[0]]) + Without(s[1..], x)
  }

  /** Filtering drops every occurrence of `x` and keeps every other entry as often as it occurs. */
  lemma {:induction false} WithoutCounts(s: seq<string>, x: string)
    ensures multiset(Without(s, x)) == multiset(s)[x := 0]
    ensures forall y :: y in Without(s, x) <==> y in s && y != x
    decreases |s|
  {
    if s != [] {
      assert s == [s[0]] + s[1..];
      WithoutCounts(s[1..], x);
    }
  }

  /** Filtering a concatenation filters each part: the kept entries stay in their order. */
  lemma {:induction false} WithoutAppend(a: seq<string>, b: seq<string>, x: string)
    ensures Without(a + b, x) == Without(a, x) + Without(b, x)
    decreases |a|
  {
    if a == [] {
      assert a + b == b;
    } else {
      var kept := if a[0] == x then [] else [a[0]];
      assert (a + b)[0] == a[0] && (a + b)[1..] == a[1..] + b;
      assert Without(a + b, x) == kept + Without(a[1..] + b, x);
      WithoutAppend(a[1..], b, x);
      assert Without(a, x) == kept + Without(a[1..], x);
    }
  }

  /** Filtering out an entry that is not there changes nothing. */
  lemma {:induction false} WithoutAbsent(s: seq<string>, x: string)
    requires x !in s
    ensures Without(s, x) == s
    decreases |s|
  {
    if s != [] {
      WithoutAbsent(s[1..], x);
    }
  }

  /** Filtering keeps the list free of repeats. */
  lemma WithoutDistinct(s: seq<string>, x: string)
    requires Distinct(s)
    ensures Distinct(Without(s, x))
  {
    var r := Without(s, x);
    WithoutCounts(s, x);
    forall y
      ensures multiset(r)[y] <= 1
    {
      assert multiset(r)[y] <= multiset(s)[y];
    }
  }

  /** `s.splice(i, 1)` for an index in range: the entry at `i` is taken out. */
  function RemoveAt(s: seq<string>, i: nat): (r: seq<string>)
    requires i < |s|
    ensures |r| == |s| - 1
    ensures multiset(r) + multiset{s[i]} == multiset(s)
    ensures forall k :: 0 <= k < i ==> r[k] == s[k]
    ensures forall k :: i <= k < |r| ==> r[k] == s[k + 1]
  {
    assert s == s[..i] + [s[i]] + s[i + 1..];
    s[..i] + s[i + 1..]
  }

  /** Where `splice` inserts: an index past the end means the end. */
  function InsertIndex(s: seq<string>, i: nat): (k: nat)
    ensures k <= |s|
    ensures k == i || (i > |s| && k == |s|)
  {
    if i > |s| then |s| else i
  }

  /** `s.splice(i, 0, x)`: `x` is put in at index `i`, or at the end when `i` is past it. */
  function InsertAt(s: seq<string>, i: nat, x: string): (r: seq<string>)
    ensures |r| == |s| + 1
    ensures r[InsertIndex(s, i)] == x
    ensures multiset(r) == multiset(s) + multiset{x}
    ensures RemoveAt(r, InsertIndex(s, i)) == s
  {
    var k := InsertIndex(s, i);
    var r := s[..k] + [x] + s[k..];
    assert s == s[..k] + s[k..];
    assert r[..k] == s[..k] && r[k + 1..] == s[k..];
    r
  }

  /** Putting an entry back where it was taken from gives the list again. */
  lemma InsertRemoved(s: seq<string>, i: nat)
    requires i < |s|
    ensures InsertAt(RemoveAt(s, i), i, s[i]) == s
  {
    var t := RemoveAt(s, i);
    assert InsertIndex(t, i) == i;
    assert t[..i] == s[..i] && t[i..] == s[i + 1..];
    assert s == s[..i] + [s[i]] + s[i + 1..];
  }

  /** In a list without repeats, the entry at `i` occurs neither before nor after `i`. */
  lemma DistinctAt(s: seq<string>, i: nat)
    requires Distinct(s) && i < |s|
    ensures s[i] !in s[..i] && s[i] !in s[i + 1..]
  {
    var x := s[i];
    assert s == s[..i] + [x] + s[i + 1..];
    assert multiset(s)[x] == multiset(s[..i])[x] + 1 + multiset(s[i + 1..])[x];
  }

  /** Filtering out an entry that occurs exactly once cuts it out. */
  lemma WithoutOnce(front: seq<string>, x: string, back: seq<string>)
    requires x !in front && x !in back
    ensures Without(front + [x] + back, x) == front + back
  {
    var single := [x];
    assert Without(single, x) == [] by {
      assert single[1..] == [];
    }
    WithoutAbsent(front, x);
    WithoutAbsent(back, x);
    WithoutAppend(front, single, x);
    assert Without(front + single, x) == front;
    WithoutAppend(front + single, back, x);
  }

  /** In a list without repeats, filtering out the entry at `i` is taking out index `i`. */
  lemma WithoutAt(s: seq<string>, i: nat)
    requires Distinct(s) && i < |s|
    ensures Without(s, s[i]) == RemoveAt(s, i)
  {
    DistinctAt(s, i);
    assert s == s[..i] + [s[i]] + s[i + 1..];
    WithoutOnce(s[..i], s[i], s[i + 1..]);
  }

  /**
   * The drag-and-drop reorder: the entry at `src` is taken out and put back
   * in at `dst`.  The list keeps its entries; the moved one ends up at `dst`
   * (or last, for a `dst` past the end); taking it out again leaves the
   * other entries exactly as taking it out of the original list does, so
   * they keep their order.
   */
  function Move(s: seq<string>, src: nat, dst: nat): (r: seq<string>)
    requires src < |s|
    ensures |r| == |s|
    ensures multiset(r) == multiset(s)
    ensures dst < |s| ==> r[dst] == s[src]
    ensures dst >= |s| ==> r[|s| - 1] == s[src]
    ensures RemoveAt(r, if dst < |s| then dst else |s| - 1) == RemoveAt(s, src)
  {
    InsertAt(RemoveAt(s, src), dst, s[src])
  }

  /** Moving an entry onto its own position changes nothing. */
  lemma MoveSame(s: seq<string>, i: nat)
    requires i < |s|
    ensures Move(s, i, i) == s
  {
    InsertRemoved(s, i);
  }

  /** Dragging the moved entry back to where it came from undoes the move. */
  lemma MoveBack(s: seq<string>, src: nat, dst: nat)
    requires src < |s| && dst < |s|
    ensures Move(Move(s, src, dst), dst, src) == s
  {
    InsertRemoved(s, src);
  }

  /** A reorder keeps the same entries and keeps the list free of repeats. */
  lemma MoveKeeps(s: seq<string>, src: nat, dst: nat)
    requires src < |s|
    ensures forall x :: x in Move(s, src, dst) <==> x in s
    ensures Distinct(s) ==> Distinct(Move(s, src, dst))
  {
    var r := Move(s, src, dst);
    forall x
      ensures x in r <==> x in s
    {
      assert x in r <==> x in multiset(r);
      assert x in s <==> x in multiset(s);
    }
  }
}
