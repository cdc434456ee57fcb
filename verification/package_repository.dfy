/**
 * The in-memory pack-size registry. Its state is a Go slice of ints, kept
 * strictly descending: a backing array (the slice's capacity) and a length.
 * Each operation is treated as atomic; the mutex that makes it so is not
 * modelled.
 */
module Repositories {
  import opened PackSizes

  class PackageRepository {
    /** Backing array of the `packSizes` slice; its length is the slice's capacity. */
    var packSizes: array<int>
    /** Length of the `packSizes` slice. */
    var length: nat
    ghost var Repr: set<object>

    ghost predicate Valid()
      reads this, Repr
      ensures Valid() ==> this in Repr
    {
      Repr == {this, packSizes} &&
      length <= packSizes.Length &&
      StrictlyDescending(packSizes[..length])
    }

    /** The registered sizes, in slice order. */
    ghost function Contents(): seq<int>
      reads this, Repr
      requires Valid()
    {
      packSizes[..length]
    }

    /** A registry starts with an empty slice. */
    constructor ()
      ensures Valid() && fresh(Repr)
      ensures Contents() == []
    {
      packSizes := new int[0];
      length := 0;
      Repr := {this, packSizes};
    }

    /**
     * Binary search for the first index whose size is at most `size`, as
     * `sort.Search` does: it halves `[i, j)` keeping "greater" on the left of
     * `i` and "at most" from `j` on.
     */
    method Search(size: int) returns (index: nat)
      requires Valid()
      ensures index <= |Contents()|
      ensures forall k :: 0 <= k < index ==> Contents()[k] > size
      ensures forall k :: index <= k < |Contents()| ==> Contents()[k] <= size
      ensures index == InsertionPoint(Contents(), size)
    {
      ghost var s := Contents();
      var i, j := 0, length;
      while i < j
        invariant 0 <= i <= j <= length
        invariant forall k :: 0 <= k < i ==> s[k] > size
        invariant forall k :: j <= k < length ==> s[k] <= size
      {
        var h := (i + j) / 2;
        if packSizes[h] > size {
          i := h + 1;
        } else {
          j := h;
        }
      }
      index := i;
      SplitPointUnique(s, size, index);
    }

    /**
     * Inserts `size` at its place in the descending slice. A size already
     * present is rejected before anything changes. Otherwise the slice grows
     * by one (reallocating when it is at capacity), the tail moves one place
     * right and `size` is written at the insertion point.
     */
    method Add(size: int) returns (outcome: Outcome)
      requires Valid()
      modifies Repr
      ensures Valid() && fresh(Repr - old(Repr))
      ensures outcome.Fail? <==> size in old(Contents())
      ensures outcome.Fail? ==> outcome.error == SizeAlreadyExists && Contents() == old(Contents())
      ensures outcome.Pass? ==> Insert(old(Contents()), size) == Success(Contents())
    {
      ghost var s := Contents();
      var index := Search(size);
      InsertFailsIffPresent(s, size);
      if index < length && packSizes[index] == size {
        return Fail(SizeAlreadyExists);
      }
      InsertKeepsDescending(s, size);
      ghost var t := Insert(s, size).value;

      Append(0);
      var a := packSizes;
      ghost var appended := a[..length];
      assert appended == s + [0];

      // copy(packSizes[index+1:], packSizes[index:])
      ShiftRight(a, index, length);
      a[index] := size;
      forall k | 0 <= k < length
        ensures a[k] == t[k]
      {
        if k < index {
          assert a[k] == appended[k] == s[k];
        } else if k > index {
          assert a[k] == appended[k - 1] == s[k - 1];
        }
      }
      assert a[..length] == t;
      outcome := Pass;
    }

    /**
     * Go's `append(packSizes, x)`: when the slice is at capacity the elements
     * move to a new, larger backing array; then `x` goes after the last one.
     * The result need not be descending, so this only keeps the shape of the
     * slice, not `Valid()`.
     */
    method Append(x: int)
      requires Repr == {this, packSizes} && length <= packSizes.Length
      modifies this, packSizes
      ensures Repr == {this, packSizes} && length <= packSizes.Length
      ensures packSizes == old(packSizes) || fresh(packSizes)
      ensures packSizes[..length] == old(packSizes[..length]) + [x]
    {
      if length == packSizes.Length {
        var grown := new int[2 * length + 1];
        forall k | 0 <= k < length {
          grown[k] := packSizes[k];
        }
        packSizes := grown;
        Repr := {this, packSizes};
      }
      packSizes[length] := x;
      length := length + 1;
    }

    /** Replaces the slice by a new empty one. */
    method DeleteAll()
      requires Valid()
      modifies Repr
      ensures Valid() && fresh(Repr - old(Repr))
      ensures Contents() == []
    {
      packSizes := new int[0];
      length := 0;
      Repr := {this, packSizes};
    }

    /**
     * A copy of the registered sizes. The result is a value, so neither
     * later registry changes nor changes by the caller affect each other.
     */
    method GetSizes() returns (sizes: seq<int>)
      requires Valid()
      ensures sizes == Contents()
      ensures StrictlyDescending(sizes)
    {
      sizes := packSizes[..length];
    }
  }

  /**
   * Go's `copy(a[index+1:n], a[index:n])` on overlapping ranges: the elements
   * `a[index..n-1]` move one place right, the last one of them is dropped, and
   * nothing outside `a[index+1..n]` changes.
   */
  method ShiftRight(a: array<int>, index: nat, n: nat)
    requires index < n <= a.Length
    modifies a
    ensures forall k :: 0 <= k <= index ==> a[k] == old(a[k])
    ensures forall k :: index < k < n ==> a[k] == old(a[k - 1])
    ensures forall k :: n <= k < a.Length ==> a[k] == old(a[k])
  {
    var j := n - 1;
    while j > index
      invariant index <= j < n
      invariant forall k :: 0 <= k <= j ==> a[k] == old(a[k])
      invariant forall k :: j < k < n ==> a[k] == old(a[k - 1])
      invariant forall k :: n <= k < a.Length ==> a[k] == old(a[k])
    {
      a[j] := a[j - 1];
      j := j - 1;
    }
  }

  /**
   * Adding 500, 250, 1000, 2000, 5000 to a new registry: every `Add`
   * succeeds, and the sizes are listed largest first.
   */
  method AddAndGetSizes() returns (outcomes: seq<Outcome>, sizes: seq<int>)
    ensures outcomes == [Pass, Pass, Pass, Pass, Pass]
    ensures sizes == [5000, 2000, 1000, 500, 250]
  {
    var repo := new PackageRepository();
    InsertInTurn();
    var o1 := repo.Add(500);
    var o2 := repo.Add(250);
    var o3 := repo.Add(1000);
    var o4 := repo.Add(2000);
    var o5 := repo.Add(5000);
    outcomes := [o1, o2, o3, o4, o5];
    sizes := repo.GetSizes();
  }

  /** Adding 1000 twice: the first call succeeds, the second reports the duplicate. */
  method AddDuplicateSize() returns (first: Outcome, second: Outcome, sizes: seq<int>)
    ensures first == Pass
    ensures second == Fail(SizeAlreadyExists)
    ensures sizes == [1000]
  {
    var repo := new PackageRepository();
    InsertIntoEmpty(1000);
    first := repo.Add(1000);
    second := repo.Add(1000);
    sizes := repo.GetSizes();
  }

  /** After `DeleteAll`, once or twice, the registry is empty. */
  method DeleteAllEmpties() returns (once: seq<int>, twice: seq<int>)
    ensures once == [] && twice == []
  {
    var repo := new PackageRepository();
    var _ := repo.Add(500);
    var _ := repo.Add(250);
    var _ := repo.Add(1000);
    repo.DeleteAll();
    once := repo.GetSizes();
    repo.DeleteAll();
    twice := repo.GetSizes();
  }
}
