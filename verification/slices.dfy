/** Go slice mechanics the unsubscribe loop depends on: deleting an
    element with an in-place append, and ranging over a slice whose backing
    array is modified during the loop. */
module Slices {

  /** The outcome of a removal loop: the slice it leaves, or a slicing fault. */
  datatype Swept<T> = Swept(remaining: seq<T>) | SweepPanicked

  /** Removal inside a shared backing array: the part of the current slice
      (length `len`) after position `i` is copied one place down, the slice
      shrinks by one, and the array from the new length on keeps what it
      held, so its old last element is still there once more. */
  function ShiftDown<T>(arr: seq<T>, len: nat, i: nat): (r: seq<T>)
    requires i < len <= |arr|
    ensures |r| == |arr|
  {
    arr[..i] + arr[i + 1..len] + arr[len - 1..]
  }

  /** What the in-place deletion leaves where: the elements before `i` stay,
      the rest of the current slice moves one place down, and from the new
      length on the backing array is untouched. */
  lemma ShiftDownLayout<T>(arr: seq<T>, len: nat, i: nat)
    requires i < len <= |arr|
    ensures var r := ShiftDown(arr, len, i);
      && (forall j :: 0 <= j < i ==> r[j] == arr[j])
      && (forall j {:trigger r[j]} :: i <= j < len - 1 ==> r[j] == arr[j + 1])
      && (forall j :: len - 1 <= j < |arr| ==> r[j] == arr[j])
  {
  }

  /** A loop that ranges over a slice and deletes every element `matches`
      accepts from that same slice. The range was fixed on entry, so the loop
      runs for the original length and reads position `i` of the shared
      backing array `arr`; the current slice has length `len`. Deleting at a
      position the current slice no longer reaches is a slicing fault. */
  function Sweep<T>(arr: seq<T>, len: nat, i: nat, matches: T -> bool): Swept<T>
    requires len <= |arr| && i <= |arr|
    decreases |arr| - i
  {
    if i == |arr| then Swept(arr[..len])
    else if matches(arr[i]) then
      if i >= len then SweepPanicked
      else Sweep(ShiftDown(arr, len, i), len - 1, i + 1, matches)
    else Sweep(arr, len, i + 1, matches)
  }

  /** Positions without a match are stepped over without changing anything. */
  lemma {:induction false} SweepSkips<T>(arr: seq<T>, len: nat, i: nat, p: nat, matches: T -> bool)
    requires len <= |arr| && i <= p <= |arr|
    requires forall j :: i <= j < p ==> !matches(arr[j])
    ensures Sweep(arr, len, i, matches) == Sweep(arr, len, p, matches)
    decreases p - i
  {
    if i < p {
      SweepSkips(arr, len, i + 1, p, matches);
    }
  }

  /** Without a match the loop leaves the slice as it found it. */
  lemma SweepNoMatch<T>(s: seq<T>, matches: T -> bool)
    requires forall j :: 0 <= j < |s| ==> !matches(s[j])
    ensures Sweep(s, |s|, 0, matches) == Swept(s)
  {
    SweepSkips(s, |s|, 0, |s|, matches);
    assert s[..|s|] == s;
  }

  /** With a single match, at `p`, the loop deletes that one element: the
      later elements shift down, and the stale copy of the last one left at
      the end of the backing array lies beyond the slice and never matches. */
  lemma SweepSingleMatch<T>(s: seq<T>, matches: T -> bool, p: nat)
    requires p < |s| && matches(s[p])
    requires forall j :: 0 <= j < |s| && j != p ==> !matches(s[j])
    ensures Sweep(s, |s|, 0, matches) == Swept(s[..p] + s[p + 1..])
  {
    SweepSkips(s, |s|, 0, p, matches);
    var arr := ShiftDown(s, |s|, p);
    assert Sweep(s, |s|, p, matches) == Sweep(arr, |s| - 1, p + 1, matches);
    SweepAfterRemoval(s, matches, p);
  }

  /** The rest of the loop once the single match at `p` is deleted. */
  lemma SweepAfterRemoval<T>(s: seq<T>, matches: T -> bool, p: nat)
    requires p < |s|
    requires forall j :: 0 <= j < |s| && j != p ==> !matches(s[j])
    ensures Sweep(ShiftDown(s, |s|, p), |s| - 1, p + 1, matches) == Swept(s[..p] + s[p + 1..])
  {
    var n := |s|;
    var arr := ShiftDown(s, n, p);
    assert forall j :: p + 1 <= j < n ==> !matches(arr[j]) by {
      ShiftDownLayout(s, n, p);
    }
    SweepSkips(arr, n - 1, p + 1, n, matches);
    assert arr[..n - 1] == s[..p] + s[p + 1..] by {
      ShiftDownLayout(s, n, p);
      var want := s[..p] + s[p + 1..];
      assert forall j :: 0 <= j < n - 1 ==> arr[j] == want[j];
    }
  }
}
