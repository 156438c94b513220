/** The heap's hole index: an array kept in insertion-sorted order. */
module OrderedArrays {

  predicate Distinct<T(==)>(s: seq<T>) {
    forall i, j :: 0 <= i < j < |s| ==> s[i] != s[j]
  }

  /** `s` with `x` placed before position `i`. */
  function Inserted<T>(s: seq<T>, i: nat, x: T): seq<T>
    requires i <= |s|
  {
    s[..i] + [x] + s[i..]
  }

  /** `s` without position `i`. */
  function Removed<T>(s: seq<T>, i: nat): seq<T>
    requires i < |s|
  {
    s[..i] + s[i + 1..]
  }

  /** The position an ordered insertion picks: the first item not before `x`. */
  ghost predicate InsertionPoint<T>(s: seq<T>, less: (T, T) -> bool, x: T, i: nat) {
    && i <= |s|
    && (forall j :: 0 <= j < i ==> less(s[j], x))
    && (i < |s| ==> !less(s[i], x))
  }

  lemma InsertedMembers<T>(s: seq<T>, i: nat, x: T)
    requires i <= |s|
    ensures forall y :: y in Inserted(s, i, x) <==> y == x || y in s
    ensures Distinct(s) && x !in s ==> Distinct(Inserted(s, i, x))
  {
    forall y ensures y in Inserted(s, i, x) <==> y == x || y in s {
      assert s == s[..i] + s[i..];
    }
  }

  lemma RemovedAt<T>(s: seq<T>, i: nat, k: nat)
    requires i < |s| && k < |s| - 1
    ensures |Removed(s, i)| == |s| - 1 && Removed(s, i)[k] == s[if k < i then k else k + 1]
  {
  }

  lemma RemovedMembers<T>(s: seq<T>, i: nat)
    requires i < |s| && Distinct(s)
    ensures forall y :: y in Removed(s, i) <==> y in s && y != s[i]
    ensures Distinct(Removed(s, i)) && |Removed(s, i)| == |s| - 1
  {
    forall y ensures y in Removed(s, i) <==> y in s && y != s[i] {
      assert s == s[..i] + [s[i]] + s[i + 1..];
    }
  }

  lemma ShiftedIn<T>(s: seq<T>, at: nat, x: T, s': seq<T>)
    requires at <= |s| && |s'| == |s| + 1 && s'[at] == x
    requires forall j :: 0 <= j < at ==> s'[j] == s[j]
    requires forall j :: at < j < |s'| ==> s'[j] == s[j - 1]
    ensures s' == Inserted(s, at, x)
  {
  }

  class OrderedArray<T(==, 0)> {
    const items: array<T>
    var size: nat

    ghost predicate Valid()
      reads this
    {
      size < items.Length
    }

    ghost function Contents(): seq<T>
      reads this, items
      requires Valid()
    {
      items[..size]
    }

    constructor (capacity: nat, zero: T)
      requires 0 < capacity
      ensures Valid() && Contents() == [] && items.Length == capacity
      ensures fresh(items)
    {
      items := new T[capacity](_ => zero);
      size := 0;
    }

    /** False when the capacity assertion at the end fails. */
    method Insert(item: T, less: (T, T) -> bool) returns (ok: bool, ghost at: nat)
      requires Valid()
      modifies this, items
      ensures ok <==> old(size) + 1 < items.Length
      ensures InsertionPoint(old(Contents()), less, item, at)
      ensures ok ==> Valid() && Contents() == Inserted(old(Contents()), at, item)
    {
      ghost var before := Contents();
      var pos := 0;
      while pos < size && less(items[pos], item)
        invariant pos <= size
        invariant forall j :: 0 <= j < pos ==> less(items[j], item)
      {
        pos := pos + 1;
      }
      at := pos;
      if pos == size {
        items[size] := item;
        size := size + 1;
      } else {
        var tmp := items[pos];
        items[pos] := item;
        while pos < size
          invariant at <= pos <= size == old(size)
          invariant forall j :: 0 <= j < at ==> items[j] == before[j]
          invariant items[at] == item
          invariant forall j {:trigger before[j]} :: at <= j < pos ==> items[j + 1] == before[j]
          invariant forall j :: pos < j < size ==> items[j] == before[j]
          invariant pos < size ==> tmp == before[pos]
        {
          pos := pos + 1;
          var tmp2 := items[pos];
          items[pos] := tmp;
          tmp := tmp2;
        }
        size := size + 1;
      }
      ShiftedIn(before, at, item, items[..size]);
      ok := size < items.Length;
    }

    method Lookup(i: nat) returns (item: T)
      requires Valid() && i < size
      ensures item == Contents()[i]
    {
      item := items[i];
    }

    method Remove(i: nat)
      requires Valid() && i < size
      modifies this, items
      ensures Valid() && Contents() == Removed(old(Contents()), i)
    {
      ghost var before := Contents();
      var k := i;
      while k < size
        invariant i <= k <= size == old(size)
        invariant forall j :: 0 <= j < i ==> items[j] == before[j]
        invariant forall j :: i <= j < k && j < size - 1 ==> items[j] == before[j + 1]
        invariant forall j :: k <= j < size ==> items[j] == before[j]
      {
        items[k] := items[k + 1];
        k := k + 1;
      }
      size := size - 1;
      assert items[..size] == Removed(before, i);
    }
  }
}
