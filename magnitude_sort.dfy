/**
 * The ordering sortAndPrint relies on: Collections.sort over earthquake
 * markers, ordered by their compareTo. The library sort is stable, so its
 * result is specified here by a stable insertion sort on compareTo, and the
 * in-place method is proved to compute exactly that sequence.
 */
module MagnitudeSort {
  import opened EarthquakeMarker

  /** Inserts `x` in front of the first element that compareTo orders
      after it, that is, after every element of magnitude at least x's. */
  function Insert(x: Quake, s: seq<Quake>): seq<Quake> {
    if s == [] then [x]
    else if CompareTo(s[0], x) > 0 then [x] + s
    else [s[0]] + Insert(x, s[1..])
  }

  /** The stable sort by compareTo: each element in turn is inserted after
      the equal-magnitude elements that came before it. */
  function SortDesc(s: seq<Quake>): (r: seq<Quake>)
    ensures |r| == |s|
  {
    if s == [] then []
    else
      InsertMembers(s[|s| - 1], SortDesc(s[..|s| - 1]));
      Insert(s[|s| - 1], SortDesc(s[..|s| - 1]))
  }

  /** Non-increasing magnitudes. */
  ghost predicate SortedDesc(s: seq<Quake>) {
    forall i, j :: 0 <= i < j < |s| ==> s[i].magnitude >= s[j].magnitude
  }

  /** The quakes of `s` with magnitude `m`, in their order in `s`. */
  function WithMagnitude(s: seq<Quake>, m: real): seq<Quake> {
    if s == [] then []
    else (if s[0].magnitude == m then [s[0]] else []) + WithMagnitude(s[1..], m)
  }

  lemma {:induction false} WithMagnitudeConcat(a: seq<Quake>, b: seq<Quake>, m: real)
    ensures WithMagnitude(a + b, m) == WithMagnitude(a, m) + WithMagnitude(b, m)
  {
    if a != [] {
      var head := if a[0].magnitude == m then [a[0]] else [];
      assert (a + b)[0] == a[0];
      assert (a + b)[1..] == a[1..] + b;
      assert WithMagnitude(a + b, m) == head + WithMagnitude(a[1..] + b, m);
      WithMagnitudeConcat(a[1..], b, m);
      assert head + (WithMagnitude(a[1..], m) + WithMagnitude(b, m))
          == (head + WithMagnitude(a[1..], m)) + WithMagnitude(b, m);
    } else {
      assert a + b == b;
    }
  }

  lemma {:induction false} WithMagnitudeNone(s: seq<Quake>, m: real)
    requires forall i :: 0 <= i < |s| ==> s[i].magnitude < m
    ensures WithMagnitude(s, m) == []
  {
    if s != [] {
      WithMagnitudeNone(s[1..], m);
    }
  }

  /** Every element of Insert(x, s) is `x` or an element of `s`. */
  lemma {:induction false} InsertMembers(x: Quake, s: seq<Quake>)
    ensures |Insert(x, s)| == |s| + 1
    ensures forall k :: 0 <= k < |Insert(x, s)| ==> Insert(x, s)[k] == x || Insert(x, s)[k] in s
  {
    if s != [] && CompareTo(s[0], x) <= 0 {
      InsertMembers(x, s[1..]);
      var r := Insert(x, s[1..]);
      forall k | 1 <= k < |r| + 1
        ensures Insert(x, s)[k] == x || Insert(x, s)[k] in s
      {
        assert Insert(x, s)[k] == r[k - 1];
        assert r[k - 1] in s[1..] ==> r[k - 1] in s;
      }
    }
  }

  /** Inserting into a sorted sequence keeps it sorted. */
  lemma {:induction false} InsertSorted(x: Quake, s: seq<Quake>)
    requires SortedDesc(s)
    ensures SortedDesc(Insert(x, s))
  {
    if s != [] && CompareTo(s[0], x) <= 0 {
      var r := Insert(x, s[1..]);
      InsertSorted(x, s[1..]);
      InsertMembers(x, s[1..]);
      forall j | 0 <= j < |r|
        ensures s[0].magnitude >= r[j].magnitude
      {
        if r[j] != x {
          var t :| 0 <= t < |s[1..]| && s[1..][t] == r[j];
          assert s[t + 1] == r[j];
        }
      }
      assert Insert(x, s) == [s[0]] + r;
    }
  }

  /** Inserting adds exactly one `x`. */
  lemma {:induction false} InsertPermutes(x: Quake, s: seq<Quake>)
    ensures multiset(Insert(x, s)) == multiset(s) + multiset{x}
  {
    if s != [] && CompareTo(s[0], x) <= 0 {
      InsertPermutes(x, s[1..]);
      assert s == [s[0]] + s[1..];
    }
  }

  /** Inserting into a sorted sequence puts `x` after the elements of the
      same magnitude. */
  lemma {:induction false} InsertStable(x: Quake, s: seq<Quake>, m: real)
    requires SortedDesc(s)
    ensures WithMagnitude(Insert(x, s), m)
         == WithMagnitude(s, m) + (if x.magnitude == m then [x] else [])
  {
    if s == [] {
    } else if CompareTo(s[0], x) > 0 {
      if x.magnitude == m {
        WithMagnitudeNone(s, m);
      }
      WithMagnitudeConcat([x], s, m);
    } else {
      InsertStable(x, s[1..], m);
      WithMagnitudeConcat([s[0]], Insert(x, s[1..]), m);
      WithMagnitudeConcat([s[0]], s[1..], m);
      assert s == [s[0]] + s[1..];
    }
  }

  lemma {:induction false} SortDescSorted(s: seq<Quake>)
    ensures SortedDesc(SortDesc(s))
  {
    if s != [] {
      SortDescSorted(s[..|s| - 1]);
      InsertSorted(s[|s| - 1], SortDesc(s[..|s| - 1]));
    }
  }

  lemma {:induction false} SortDescPermutes(s: seq<Quake>)
    ensures multiset(SortDesc(s)) == multiset(s)
  {
    if s != [] {
      var init, last := s[..|s| - 1], s[|s| - 1];
      SortDescPermutes(init);
      InsertPermutes(last, SortDesc(init));
      assert s == init + [last];
    }
  }

  lemma {:induction false} SortDescStable(s: seq<Quake>, m: real)
    ensures WithMagnitude(SortDesc(s), m) == WithMagnitude(s, m)
  {
    if s != [] {
      var init, last := s[..|s| - 1], s[|s| - 1];
      SortDescStable(init, m);
      SortDescSorted(init);
      InsertStable(last, SortDesc(init), m);
      assert s == init + [last];
      WithMagnitudeConcat(init, [last], m);
    }
  }

  /** The sort result is in non-increasing magnitude order, is a
      permutation of the input, and keeps equal magnitudes in input order. */
  lemma SortDescProperties(s: seq<Quake>, m: real)
    ensures |SortDesc(s)| == |s|
    ensures SortedDesc(SortDesc(s))
    ensures multiset(SortDesc(s)) == multiset(s)
    ensures WithMagnitude(SortDesc(s), m) == WithMagnitude(s, m)
  {
    SortDescSorted(s);
    SortDescPermutes(s);
    SortDescStable(s, m);
  }

  /** Insert puts `x` at position `p` when `p` is the first position whose
      element compareTo orders after `x`. */
  lemma {:induction false} InsertAt(x: Quake, s: seq<Quake>, p: nat)
    requires p <= |s|
    requires forall t :: 0 <= t < p ==> CompareTo(s[t], x) <= 0
    requires p < |s| ==> CompareTo(s[p], x) > 0
    ensures Insert(x, s) == s[..p] + [x] + s[p..]
  {
    if p > 0 {
      InsertAt(x, s[1..], p - 1);
      assert s[..p] == [s[0]] + s[1..][..p - 1];
    }
  }

  /** In a sorted sequence, the place after the last element compareTo
      does not order after `x` is where Insert puts it. */
  lemma InsertPosition(x: Quake, s: seq<Quake>, j: nat)
    requires SortedDesc(s) && j <= |s|
    requires j > 0 ==> CompareTo(s[j - 1], x) <= 0
    requires forall t :: j <= t < |s| ==> CompareTo(s[t], x) > 0
    ensures Insert(x, s) == s[..j] + [x] + s[j..]
  {
    forall t | 0 <= t < j
      ensures CompareTo(s[t], x) <= 0
    {
      assert s[t].magnitude >= s[j - 1].magnitude;
    }
    InsertAt(x, s, j);
  }

  /** Writing `x` into the gap the shifting loop opened at `j` gives the
      prefix with `x` in place. */
  lemma PlaceInShifted(shifted: seq<Quake>, s: seq<Quake>, x: Quake, i: nat, j: nat)
    requires j <= i < |shifted| && |s| == i
    requires shifted[..j] == s[..j]
    requires shifted[j + 1..i + 1] == s[j..i]
    ensures shifted[j := x][..i + 1] == s[..j] + [x] + s[j..]
    ensures shifted[j := x][i + 1..] == shifted[i + 1..]
  {
    var placed := shifted[j := x];
    assert placed[..j] == s[..j];
    assert placed[j + 1..i + 1] == s[j..];
    assert placed[..i + 1] == placed[..j] + [placed[j]] + placed[j + 1..i + 1];
  }

  /** The shifting loop of one insertion step: the elements of a[..i] that
      compareTo orders after `x`, a suffix of them, move one place right,
      leaving a gap at the returned position. */
  method ShiftGreater(a: array<Quake>, i: nat, x: Quake, ghost s: seq<Quake>) returns (j: nat)
    requires i < a.Length && |s| == i
    requires forall k :: 0 <= k < i ==> a[k] == s[k]
    modifies a
    ensures j <= i
    ensures forall k :: 0 <= k < j ==> a[k] == s[k]
    ensures forall k :: j < k <= i ==> a[k] == s[k - 1]
    ensures forall k :: i < k < a.Length ==> a[k] == old(a[k])
    ensures j > 0 ==> CompareTo(s[j - 1], x) <= 0
    ensures forall t :: j <= t < i ==> CompareTo(s[t], x) > 0
  {
    j := i;
    while j > 0 && CompareTo(a[j - 1], x) > 0
      invariant 0 <= j <= i
      invariant forall k :: 0 <= k < j ==> a[k] == s[k]
      invariant forall k :: j < k <= i ==> a[k] == s[k - 1]
      invariant forall k :: i < k < a.Length ==> a[k] == old(a[k])
      invariant forall t :: j <= t < i ==> CompareTo(s[t], x) > 0
    {
      a[j] := a[j - 1];
      j := j - 1;
    }
  }

  /** The array contents after the shift and the write, as a sequence. */
  lemma GapFilled(b: seq<Quake>, s: seq<Quake>, x: Quake, rest: seq<Quake>, i: nat, j: nat)
    requires j <= i < |b| && |s| == i && |rest| == |b| - i - 1
    requires forall k :: 0 <= k < j ==> b[k] == s[k]
    requires b[j] == x
    requires forall k :: j < k <= i ==> b[k] == s[k - 1]
    requires forall k :: i < k < |b| ==> b[k] == rest[k - i - 1]
    ensures b[..i + 1] == s[..j] + [x] + s[j..]
    ensures b[i + 1..] == rest
  {
    assert b[..i + 1] == b[..j] + [x] + b[j + 1..i + 1];
  }

  /** One step of the insertion sort: a[i] goes into the gap ShiftGreater
      opens for it, so a[..i + 1] is a[..i] with a[i] placed after the
      elements compareTo does not order after it. */
  method InsertNext(a: array<Quake>, i: nat) returns (j: nat)
    requires i < a.Length
    modifies a
    ensures j <= i
    ensures a[..i + 1] == old(a[..i])[..j] + [old(a[i])] + old(a[..i])[j..]
    ensures a[i + 1..] == old(a[i + 1..])
    ensures j > 0 ==> CompareTo(old(a[..i])[j - 1], old(a[i])) <= 0
    ensures forall t :: j <= t < i ==> CompareTo(old(a[..i])[t], old(a[i])) > 0
  {
    var x := a[i];
    ghost var s := a[..i];
    ghost var rest := a[i + 1..];
    j := ShiftGreater(a, i, x, s);
    a[j] := x;
    GapFilled(a[..], s, x, rest, i, j);
  }

  /** Sorting one more element inserts it into the sorted prefix. */
  lemma SortDescSnoc(s: seq<Quake>, i: nat)
    requires i < |s|
    ensures SortDesc(s[..i + 1]) == Insert(s[i], SortDesc(s[..i]))
  {
    assert s[..i + 1][..i] == s[..i];
  }

  /** Placing the next input element at the gap InsertNext finds extends
      the sorted prefix by one element. */
  lemma SortStep(input: seq<Quake>, i: nat, j: nat)
    requires i < |input| && j <= i
    requires j > 0 ==> CompareTo(SortDesc(input[..i])[j - 1], input[i]) <= 0
    requires forall t :: j <= t < i ==> CompareTo(SortDesc(input[..i])[t], input[i]) > 0
    ensures SortDesc(input[..i + 1])
         == SortDesc(input[..i])[..j] + [input[i]] + SortDesc(input[..i])[j..]
  {
    SortDescSorted(input[..i]);
    InsertPosition(input[i], SortDesc(input[..i]), j);
    SortDescSnoc(input, i);
  }

  /** Collections.sort on a list of quakes, as an in-place insertion sort
      by compareTo. */
  method SortByMagnitude(a: array<Quake>)
    modifies a
    ensures a[..] == SortDesc(old(a[..]))
  {
    ghost var input := a[..];
    var i := 0;
    while i < a.Length
      invariant 0 <= i <= a.Length
      invariant a[..i] == SortDesc(input[..i])
      invariant a[i..] == input[i..]
    {
      assert a[i] == input[i];
      assert a[i + 1..] == a[i..][1..] == input[i..][1..] == input[i + 1..];
      var j := InsertNext(a, i);
      SortStep(input, i, j);
      i := i + 1;
    }
    assert input[..a.Length] == input;
  }
}
