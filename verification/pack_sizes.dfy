/**
 * The value-level model of the pack-size registry: the ordering
 * invariant of its slice, the insertion point that `sort.Search` finds, and
 * the outcome of inserting one size.
 */
module PackSizes {

  /** The registry's one error: the size is already registered. */
  datatype RepoError = SizeAlreadyExists

  /** What the registry's `Add` returns: nothing, or an error. */
  datatype Outcome = Pass | Fail(error: RepoError)

  /** A value, or the registry error that prevented it. */
  datatype Result<T> = Success(value: T) | Failure(error: RepoError)

  /** The registry's invariant: sizes strictly descending, hence no duplicates. */
  predicate StrictlyDescending(s: seq<int>) {
    forall i, j :: 0 <= i < j < |s| ==> s[i] > s[j]
  }

  /**
   * The smallest index whose element is at most `size` (`|s|` if there is
   * none): the index `sort.Search` returns for the predicate `s[i] <= size`.
   */
  function InsertionPoint(s: seq<int>, size: int): (i: nat)
    ensures i <= |s|
    ensures forall k :: 0 <= k < i ==> s[k] > size
    ensures i < |s| ==> s[i] <= size
  {
    if s == [] || s[0] <= size then 0 else 1 + InsertionPoint(s[1..], size)
  }

  /** Any index that splits `s` into "greater than size" and "at most size" is the insertion point. */
  lemma {:induction false} SplitPointUnique(s: seq<int>, size: int, i: nat)
    requires i <= |s|
    requires forall k :: 0 <= k < i ==> s[k] > size
    requires i < |s| ==> s[i] <= size
    ensures InsertionPoint(s, size) == i
  {
    if i > 0 {
      SplitPointUnique(s[1..], size, i - 1);
    }
  }

  /** On a strictly descending slice, every element from the insertion point on is at most `size`. */
  lemma InsertionPointSplits(s: seq<int>, size: int)
    requires StrictlyDescending(s)
    ensures forall k :: InsertionPoint(s, size) <= k < |s| ==> s[k] <= size
  {
    var i := InsertionPoint(s, size);
    forall k | i <= k < |s| ensures s[k] <= size {
      if k > i {
        assert s[i] > s[k];
      }
    }
  }

  /**
   * Inserting `size`: fail when the element at the insertion point equals
   * it, otherwise put it at the insertion point.
   */
  function Insert(s: seq<int>, size: int): (r: Result<seq<int>>)
    ensures r.Success? ==> |r.value| == |s| + 1
    ensures r.Failure? ==> size in s
  {
    var i := InsertionPoint(s, size);
    if i < |s| && s[i] == size then Failure(SizeAlreadyExists)
    else
      assert s == s[..i] + s[i..];
      Success(s[..i] + [size] + s[i..])
  }

  /** On a valid slice, insertion fails exactly when the size is already present. */
  lemma InsertFailsIffPresent(s: seq<int>, size: int)
    requires StrictlyDescending(s)
    ensures Insert(s, size).Failure? <==> size in s
  {
    if size in s {
      var k :| 0 <= k < |s| && s[k] == size;
      var i := InsertionPoint(s, size);
      InsertionPointSplits(s, size);
      assert k >= i;
    }
  }

  /**
   * A successful insertion places `size` at the insertion point: the prefix
   * before it is unchanged and the rest is shifted right by one, and the
   * slice stays strictly descending.
   */
  lemma InsertKeepsDescending(s: seq<int>, size: int)
    requires StrictlyDescending(s)
    requires size !in s
    ensures Insert(s, size).Success?
    ensures var i := InsertionPoint(s, size);
      var t := Insert(s, size).value;
      t[i] == size &&
      (forall k :: 0 <= k < i ==> t[k] == s[k]) &&
      (forall k :: i < k < |t| ==> t[k] == s[k - 1])
    ensures StrictlyDescending(Insert(s, size).value)
  {
    InsertFailsIffPresent(s, size);
    var i := InsertionPoint(s, size);
    var t := Insert(s, size).value;
    InsertionPointSplits(s, size);
    forall k | i <= k < |s| ensures s[k] < size {
      assert s[k] <= size && s[k] != size;
    }
    forall a, b | 0 <= a < b < |t| ensures t[a] > t[b] {
      if b < i {
        assert t[a] == s[a] && t[b] == s[b];
      } else if b == i {
        assert t[a] == s[a];
      } else if a < i {
        assert t[a] == s[a] && t[b] == s[b - 1];
      } else if a == i {
        assert t[b] == s[b - 1];
      } else {
        assert t[a] == s[a - 1] && t[b] == s[b - 1];
      }
    }
  }

  /** Inserting into an empty slice gives the one-element slice. */
  lemma InsertIntoEmpty(size: int)
    ensures Insert([], size) == Success([size])
  {
    var empty: seq<int> := [];
    assert InsertionPoint(empty, size) == 0;
    assert empty[..0] + [size] + empty[0..] == [size];
  }

  /**
   * A size larger than the largest registered one goes to the front: the
   * result `t` is `[size] + s`. The expected slice is a parameter, fixed by
   * the precondition, so that callers on literal slices name it once and
   * the solver does not rebuild the concatenation.
   */
  lemma InsertLargest(s: seq<int>, size: int, t: seq<int>)
    requires s != [] && s[0] < size
    requires t == [size] + s
    ensures Insert(s, size) == Success(t)
  {
    assert s[..0] + [size] + s[0..] == t;
  }

  /**
   * On a valid slice, a size smaller than the smallest registered one goes
   * to the back: the result `t` is `s + [size]`. As in `InsertLargest`, the
   * expected slice is a parameter fixed by the precondition.
   */
  lemma InsertSmallest(s: seq<int>, size: int, t: seq<int>)
    requires StrictlyDescending(s)
    requires s != [] && s[|s| - 1] > size
    requires t == s + [size]
    ensures Insert(s, size) == Success(t)
  {
    forall k | 0 <= k < |s| ensures s[k] > size {
      if k < |s| - 1 {
        assert s[k] > s[|s| - 1];
      }
    }
    SplitPointUnique(s, size, |s|);
    assert s[..|s|] + [size] + s[|s|..] == t;
  }

  /**
   * A successful insertion adds exactly `size`: the new slice holds the old
   * elements and `size`, each once.
   */
  lemma InsertContents(s: seq<int>, size: int)
    requires Insert(s, size).Success?
    ensures multiset(Insert(s, size).value) == multiset(s) + multiset{size}
    ensures forall x :: x in Insert(s, size).value <==> x in s || x == size
  {
    var i := InsertionPoint(s, size);
    assert s == s[..i] + s[i..];
    var t := Insert(s, size).value;
    assert multiset(t) == multiset(s[..i]) + multiset{size} + multiset(s[i..]);
    assert forall x :: x in t <==> x in multiset(t);
  }

  /** Inserting 500, 250, 1000, 2000 and 5000 in turn, starting from an empty slice. */
  lemma InsertInTurn()
    ensures Insert([], 500) == Success([500])
    ensures Insert([500], 250) == Success([500, 250])
    ensures Insert([500, 250], 1000) == Success([1000, 500, 250])
    ensures Insert([1000, 500, 250], 2000) == Success([2000, 1000, 500, 250])
    ensures Insert([2000, 1000, 500, 250], 5000) == Success([5000, 2000, 1000, 500, 250])
  {
    InsertIntoEmpty(500);
    InsertSmallest([500], 250, [500, 250]);
    InsertLargest([500, 250], 1000, [1000, 500, 250]);
    InsertLargest([1000, 500, 250], 2000, [2000, 1000, 500, 250]);
    InsertLargest([2000, 1000, 500, 250], 5000, [5000, 2000, 1000, 500, 250]);
  }

  /** Inserting 250, 500, 1000, 2000 and 5000 in turn: each new size goes to the front. */
  lemma InsertAscending()
    ensures Insert([], 250) == Success([250])
    ensures Insert([250], 500) == Success([500, 250])
    ensures Insert([500, 250], 1000) == Success([1000, 500, 250])
    ensures Insert([1000, 500, 250], 2000) == Success([2000, 1000, 500, 250])
    ensures Insert([2000, 1000, 500, 250], 5000) == Success([5000, 2000, 1000, 500, 250])
  {
    InsertIntoEmpty(250);
    InsertLargest([250], 500, [500, 250]);
    InsertLargest([500, 250], 1000, [1000, 500, 250]);
    InsertLargest([1000, 500, 250], 2000, [2000, 1000, 500, 250]);
    InsertLargest([2000, 1000, 500, 250], 5000, [5000, 2000, 1000, 500, 250]);
  }

  /** Inserting 5 and then 12 gives [12, 5]. */
  lemma InsertFiveThenTwelve()
    ensures Insert([], 5) == Success([5])
    ensures Insert([5], 12) == Success([12, 5])
  {
    InsertIntoEmpty(5);
    InsertLargest([5], 12, [12, 5]);
  }
}
