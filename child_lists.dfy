/**
 * Positional access to an ordered child list (an id-list property such as
 * `root.panels` or `keywordGroup.keywords`): inserting, removing and appending
 * an element by index, finding a sibling's position, and resolving where an
 * "insert after" operation puts its new element.
 */
module ChildLists {
  import opened Options

  /** The list with `x` inserted at index `i`; everything from `i` on moves one place right. */
  function InsertAt<T>(s: seq<T>, i: nat, x: T): (r: seq<T>)
    requires i <= |s|
    ensures |r| == |s| + 1
    ensures r[i] == x
    ensures forall k | 0 <= k < i :: r[k] == s[k]
    ensures forall k | i < k < |r| :: r[k] == s[k - 1]
  {
    s[..i] + [x] + s[i..]
  }

  /** The list without its element at index `i`; everything after it moves one place left. */
  function RemoveAt<T>(s: seq<T>, i: nat): (r: seq<T>)
    requires i < |s|
    ensures |r| == |s| - 1
    ensures forall k | 0 <= k < i :: r[k] == s[k]
    ensures forall k | i <= k < |r| :: r[k] == s[k + 1]
  {
    s[..i] + s[i + 1..]
  }

  /** Appending is inserting at the current length. */
  function Append<T>(s: seq<T>, x: T): (r: seq<T>)
    ensures r == InsertAt(s, |s|, x)
    ensures |r| == |s| + 1 && r[|s|] == x && r[..|s|] == s
  {
    s + [x]
  }

  /** The position of `x` in the list (its first occurrence), as a node's `getPosition()` reports it. */
  function IndexOf<T(==)>(s: seq<T>, x: T): (r: nat)
    requires x in s
    ensures r < |s| && s[r] == x
    ensures forall k | 0 <= k < r :: s[k] != x
  {
    if s[0] == x then 0 else 1 + IndexOf(s[1..], x)
  }

  /**
   * Where an insert operation puts its new element: at the end when no sibling
   * is given, otherwise directly after the sibling.
   */
  function InsertIndex<T(==)>(s: seq<T>, after: Option<T>): (r: nat)
    requires after.Some? ==> after.value in s
    ensures r <= |s|
    ensures after.None? ==> r == |s|
    ensures after.Some? ==> 0 < r && s[r - 1] == after.value
    ensures after.Some? ==> forall k | 0 <= k < r - 1 :: s[k] != after.value
  {
    match after
    case None => |s|
    case Some(sibling) => IndexOf(s, sibling) + 1
  }

  /** No entry occurs twice: what an id-list of owned children satisfies. */
  predicate NoDuplicates<T(==)>(s: seq<T>)
  {
    forall i, j | 0 <= i < j < |s| :: s[i] != s[j]
  }

  /** Removing what was just inserted gives back the original list. */
  lemma RemoveInsertRoundTrip<T>(s: seq<T>, i: nat, x: T)
    requires i <= |s|
    ensures RemoveAt(InsertAt(s, i, x), i) == s
  {
    var r := InsertAt(s, i, x);
    assert RemoveAt(r, i) == r[..i] + r[i + 1..];
    assert r[..i] == s[..i];
    assert r[i + 1..] == s[i..];
    assert s[..i] + s[i..] == s;
  }

  /** Inserting at the boundary of a concatenation places the element between the two parts. */
  lemma InsertAtJoin<T>(a: seq<T>, b: seq<T>, x: T)
    ensures InsertAt(a + b, |a|, x) == a + [x] + b
  {
    assert (a + b)[..|a|] == a;
    assert (a + b)[|a|..] == b;
  }

  /** Removing at the boundary of a concatenation drops the first element of the second part. */
  lemma RemoveAtJoin<T>(a: seq<T>, b: seq<T>)
    requires b != []
    ensures RemoveAt(a + b, |a|) == a + b[1..]
  {
    assert (a + b)[..|a|] == a;
    assert (a + b)[|a| + 1..] == b[1..];
  }

  /**
   * Inserting after a sibling at position p: the sibling stays at p, the new
   * element lands at p + 1, the part up to the sibling is unchanged and the part
   * after it follows the new element.
   */
  lemma InsertAfterSibling<T>(s: seq<T>, sibling: T, x: T)
    requires sibling in s
    ensures var p := IndexOf(s, sibling);
            var r := InsertAt(s, InsertIndex(s, Some(sibling)), x);
            r[p] == sibling && r[p + 1] == x && r[..p + 1] == s[..p + 1] && r[p + 2..] == s[p + 1..]
  {
    var p := IndexOf(s, sibling);
    var r := InsertAt(s, p + 1, x);
    assert r == s[..p + 1] + [x] + s[p + 1..];
    assert r[..p + 1] == s[..p + 1];
    assert r[p + 2..] == s[p + 1..];
  }
}
