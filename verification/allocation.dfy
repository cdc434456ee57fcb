/**
 * The value-level model of the pack calculator: a greedy pass over
 * the sizes, largest first, followed by one extra pack of the smallest size
 * when items are left over. Results are maps from pack size to pack count.
 */
module Allocation {
  import opened PackSizes

  /** No pack size is zero, so dividing by any of them is defined. */
  predicate NonZero(sizes: seq<int>) {
    forall i :: 0 <= i < |sizes| ==> sizes[i] != 0
  }

  /** Every pack size holds at least one item. */
  predicate AllPositive(sizes: seq<int>) {
    forall i :: 0 <= i < |sizes| ==> sizes[i] > 0
  }

  /** The number of packs of `size` in `packs`; a missing key counts as zero, as a Go map read does. */
  function Count(packs: map<int, int>, size: int): int {
    if size in packs then packs[size] else 0
  }

  /** Items shipped by `packs`: the sum of size times count over `sizes`. */
  function Shipped(sizes: seq<int>, packs: map<int, int>): int {
    if sizes == [] then 0
    else Shipped(sizes[..|sizes| - 1], packs) + sizes[|sizes| - 1] * Count(packs, sizes[|sizes| - 1])
  }

  /** The magnitude of `x`. */
  function Abs(x: int): int {
    if x >= 0 then x else -x
  }

  /** The smallest 64-bit `int`, the one dividend whose quotient can overflow. */
  const MinInt64: int := -0x8000_0000_0000_0000

  /**
   * Go's integer division: the quotient is truncated toward zero, so the
   * remainder `a - q * b` takes the sign of the dividend and is smaller than
   * the divisor in magnitude. The one quotient that does not fit in 64 bits,
   * `MinInt64 / -1`, wraps around to `MinInt64`, as Go defines it.
   */
  function GoDiv(a: int, b: int): (q: int)
    requires b != 0
    ensures a == MinInt64 && b == -1 ==> q == MinInt64
    ensures b > 0 && a >= 0 ==> q >= 0 && 0 <= a - q * b < b
    ensures b > 0 && a < 0 ==> q <= 0 && -b < a - q * b <= 0
    ensures b < 0 && a >= 0 ==> q <= 0 && 0 <= a - q * b < -b
    ensures b < 0 && a < 0 && !(a == MinInt64 && b == -1) ==> q >= 0 && b < a - q * b <= 0
    ensures Abs(a) < Abs(b) ==> q == 0
  {
    if a == MinInt64 && b == -1 then MinInt64
    else
      var m := Abs(a) / Abs(b);
      var q := if (a >= 0) == (b > 0) then m else -m;
      TruncatedQuotient(a, b, q);
      q
  }

  /** The bounds on a quotient truncated toward zero, case by case on the signs. */
  lemma TruncatedQuotient(a: int, b: int, q: int)
    requires b != 0
    requires q == if (a >= 0) == (b > 0) then Abs(a) / Abs(b) else -(Abs(a) / Abs(b))
    ensures b > 0 && a >= 0 ==> q >= 0 && 0 <= a - q * b < b
    ensures b > 0 && a < 0 ==> q <= 0 && -b < a - q * b <= 0
    ensures b < 0 && a >= 0 ==> q <= 0 && 0 <= a - q * b < -b
    ensures b < 0 && a < 0 ==> q >= 0 && b < a - q * b <= 0
    ensures Abs(a) < Abs(b) ==> q == 0
  {
    var n, d := Abs(a), Abs(b);
    var m := n / d;
    WholePacks(n, d);
    if b > 0 && a >= 0 {
      assert q * b == m * d;
    } else if b > 0 {
      assert q * b == -(m * d);
    } else if a >= 0 {
      assert q * b == (-m) * (-d) == m * d;
    } else {
      assert q * b == m * (-d) == -(m * d);
    }
  }

  /** Dividing a non-negative count by `size` leaves a remainder below `size`. */
  lemma WholePacks(n: int, size: int)
    requires n >= 0 && size > 0
    ensures n / size >= 0
    ensures 0 <= n - n / size * size < size
    ensures n < size ==> n / size == 0
  {
  }

  /**
   * The state of the calculator's loop after it has visited `sizes`: the packs
   * chosen so far and the items still to cover. Each size takes as many whole
   * packs as fit into what remains, and only a positive count is recorded.
   * From a non-negative order a negative size never takes a pack; with
   * positive sizes a non-positive order takes none.
   */
  function GreedyPass(order: int, sizes: seq<int>): (state: (map<int, int>, int))
    requires NonZero(sizes)
    ensures order >= 0 ==> 0 <= state.1 <= order
    ensures order >= 0 && sizes != [] && sizes[|sizes| - 1] > 0 ==> state.1 < sizes[|sizes| - 1]
    ensures order <= 0 && AllPositive(sizes) ==> state == (map[], order)
    ensures order == 0 ==> state == (map[], 0)
    decreases |sizes|
  {
    if sizes == [] then (map[], order)
    else
      var (packs, remaining) := GreedyPass(order, sizes[..|sizes| - 1]);
      var size := sizes[|sizes| - 1];
      var count := GoDiv(remaining, size);
      if count > 0 then (packs[size := count], remaining - count * size)
      else (packs, remaining)
  }

  /** The greedy pass over one more size continues from the pass over the sizes before it. */
  lemma GreedyPassStep(order: int, sizes: seq<int>, i: nat)
    requires NonZero(sizes) && i < |sizes|
    ensures var pass := GreedyPass(order, sizes[..i]);
      var count := GoDiv(pass.1, sizes[i]);
      GreedyPass(order, sizes[..i + 1]) ==
        if count > 0 then (pass.0[sizes[i] := count], pass.1 - count * sizes[i]) else pass
  {
    assert sizes[..i + 1][..i] == sizes[..i];
  }

  /** The greedy pass only records listed sizes, each with a positive count. */
  lemma {:induction false} GreedyPassKeys(order: int, sizes: seq<int>)
    requires NonZero(sizes)
    ensures forall k :: k in GreedyPass(order, sizes).0 ==> k in sizes && GreedyPass(order, sizes).0[k] > 0
  {
    if sizes != [] {
      var prefix := sizes[..|sizes| - 1];
      GreedyPassKeys(order, prefix);
      assert forall x :: x in prefix ==> x in sizes;
    }
  }

  /**
   * The calculator's answer: the greedy pass, plus one pack of the smallest
   * size if items are still uncovered and there is any size at all.
   */
  function Allocate(order: int, sizes: seq<int>): (packs: map<int, int>)
    requires NonZero(sizes)
    ensures sizes == [] || order == 0 ==> packs == map[]
    ensures order < 0 && AllPositive(sizes) ==> packs == map[]
  {
    var pass := GreedyPass(order, sizes);
    if pass.1 > 0 && |sizes| > 0 then
      var smallest := sizes[|sizes| - 1];
      pass.0[smallest := Count(pass.0, smallest) + 1]
    else pass.0
  }

  /** `Allocate` in terms of the greedy pass's final state. */
  lemma AllocateAfterPass(order: int, sizes: seq<int>, packs: map<int, int>, remaining: int)
    requires NonZero(sizes)
    requires packs == GreedyPass(order, sizes).0 && remaining == GreedyPass(order, sizes).1
    ensures remaining > 0 && sizes != [] ==>
      Allocate(order, sizes) == packs[sizes[|sizes| - 1] := Count(packs, sizes[|sizes| - 1]) + 1]
    ensures remaining <= 0 || sizes == [] ==> Allocate(order, sizes) == packs
  {
  }

  /** The answer only holds listed sizes, each with a positive number of packs. */
  lemma AllocateKeys(order: int, sizes: seq<int>)
    requires NonZero(sizes)
    ensures forall k :: k in Allocate(order, sizes) ==> k in sizes && Allocate(order, sizes)[k] > 0
  {
    GreedyPassKeys(order, sizes);
  }

  /** Changing the count of a size that is not listed does not change the total. */
  lemma {:induction false} ShippedIgnoresUnlisted(sizes: seq<int>, packs: map<int, int>, size: int, count: int)
    requires size !in sizes
    ensures Shipped(sizes, packs[size := count]) == Shipped(sizes, packs)
  {
    if sizes != [] {
      var prefix := sizes[..|sizes| - 1];
      assert forall x :: x in prefix ==> x in sizes;
      ShippedIgnoresUnlisted(prefix, packs, size, count);
    }
  }

  /** In a strictly descending list the last element occurs nowhere before it. */
  lemma LastNotInPrefix(sizes: seq<int>)
    requires StrictlyDescending(sizes) && sizes != []
    ensures sizes[|sizes| - 1] !in sizes[..|sizes| - 1]
  {
    var prefix := sizes[..|sizes| - 1];
    forall i | 0 <= i < |prefix| ensures prefix[i] != sizes[|sizes| - 1] {
      assert sizes[i] > sizes[|sizes| - 1];
    }
  }

  /** One more pack of the smallest size ships exactly that many more items. */
  lemma ShippedOneMore(sizes: seq<int>, packs: map<int, int>)
    requires StrictlyDescending(sizes) && sizes != []
    ensures var smallest := sizes[|sizes| - 1];
      Shipped(sizes, packs[smallest := Count(packs, smallest) + 1]) == Shipped(sizes, packs) + smallest
  {
    var prefix := sizes[..|sizes| - 1];
    var smallest := sizes[|sizes| - 1];
    var count := Count(packs, smallest);
    LastNotInPrefix(sizes);
    ShippedIgnoresUnlisted(prefix, packs, smallest, count + 1);
    assert Shipped(sizes, packs) == Shipped(prefix, packs) + smallest * count;
    assert Shipped(sizes, packs[smallest := count + 1]) == Shipped(prefix, packs) + smallest * (count + 1);
  }

  /** The greedy pass loses no items: what it packs plus what remains is the order. */
  lemma {:induction false} GreedyPassAccounts(order: int, sizes: seq<int>)
    requires NonZero(sizes) && StrictlyDescending(sizes)
    ensures Shipped(sizes, GreedyPass(order, sizes).0) + GreedyPass(order, sizes).1 == order
  {
    if sizes != [] {
      var prefix := sizes[..|sizes| - 1];
      var size := sizes[|sizes| - 1];
      GreedyPassAccounts(order, prefix);
      var pass := GreedyPass(order, prefix);
      var packs, remaining := pass.0, pass.1;
      LastNotInPrefix(sizes);
      GreedyPassKeys(order, prefix);
      assert size !in packs;
      var count := GoDiv(remaining, size);
      if count > 0 {
        ShippedIgnoresUnlisted(prefix, packs, size, count);
        assert Shipped(sizes, packs[size := count]) == Shipped(prefix, packs) + size * count;
      } else {
        assert Shipped(sizes, packs) == Shipped(prefix, packs) + size * 0;
      }
    }
  }

  /**
   * With at least one size, the answer covers the order, and ships fewer
   * extra items than the smallest pack holds.
   */
  lemma AllocateCovers(order: int, sizes: seq<int>)
    requires order >= 0 && AllPositive(sizes) && StrictlyDescending(sizes)
    requires sizes != []
    ensures order <= Shipped(sizes, Allocate(order, sizes)) < order + sizes[|sizes| - 1]
  {
    var pass := GreedyPass(order, sizes);
    var packs, remaining := pass.0, pass.1;
    var smallest := sizes[|sizes| - 1];
    assert Shipped(sizes, packs) == order - remaining by {
      GreedyPassAccounts(order, sizes);
    }
    assert 0 <= remaining < smallest;
    if remaining > 0 {
      var bumped := Count(packs, smallest) + 1;
      assert Allocate(order, sizes) == packs[smallest := bumped];
      ShippedOneMore(sizes, packs);
    } else {
      assert Allocate(order, sizes) == packs;
    }
  }

  /**
   * When the greedy pass leaves nothing over, no extra pack is added and
   * exactly the order is shipped.
   */
  lemma AllocateExact(order: int, sizes: seq<int>)
    requires order >= 0 && AllPositive(sizes) && StrictlyDescending(sizes)
    requires GreedyPass(order, sizes).1 == 0
    ensures Allocate(order, sizes) == GreedyPass(order, sizes).0
    ensures Shipped(sizes, Allocate(order, sizes)) == order
  {
    GreedyPassAccounts(order, sizes);
  }

  /** If every size is larger than the order, the greedy pass takes nothing. */
  lemma {:induction false} GreedyPassBelowAll(order: int, sizes: seq<int>)
    requires AllPositive(sizes)
    requires forall i :: 0 <= i < |sizes| ==> sizes[i] > order
    ensures GreedyPass(order, sizes) == (map[], order)
  {
    if sizes != [] {
      GreedyPassBelowAll(order, sizes[..|sizes| - 1]);
    }
  }

  /**
   * A positive order no larger than the smallest size gets exactly one pack
   * of the smallest size.
   */
  lemma AllocateUpToSmallest(order: int, sizes: seq<int>)
    requires AllPositive(sizes) && StrictlyDescending(sizes)
    requires sizes != [] && 0 < order <= sizes[|sizes| - 1]
    ensures Allocate(order, sizes) == map[sizes[|sizes| - 1] := 1]
  {
    var prefix := sizes[..|sizes| - 1];
    var smallest := sizes[|sizes| - 1];
    forall i | 0 <= i < |prefix| ensures prefix[i] > order {
      assert sizes[i] > smallest;
    }
    GreedyPassBelowAll(order, prefix);
    if order < smallest {
      GreedyPassBelowAll(order, sizes);
      AllocateAfterPass(order, sizes, map[], order);
      assert Count(map[], smallest) == 0;
    } else {
      assert GreedyPass(order, sizes) == (map[smallest := 1], 0) by {
        assert GoDiv(order, smallest) == 1;
      }
      AllocateAfterPass(order, sizes, map[smallest := 1], 0);
    }
  }

  /** Orders 1 and 250 against sizes 5000, 2000, 1000, 500, 250: one pack of 250. */
  lemma AllocateUpTo250()
    ensures Allocate(1, [5000, 2000, 1000, 500, 250]) == map[250 := 1]
    ensures Allocate(250, [5000, 2000, 1000, 500, 250]) == map[250 := 1]
  {
    AllocateUpToSmallest(1, [5000, 2000, 1000, 500, 250]);
    AllocateUpToSmallest(250, [5000, 2000, 1000, 500, 250]);
  }

  /** Order 501: one pack of 500, and one of 250 for the item left over. */
  lemma AllocateOrder501()
    ensures Allocate(501, [5000, 2000, 1000, 500, 250]) == map[500 := 1, 250 := 1]
  {
    GreedyPassBelowAll(501, [5000, 2000, 1000]);
    assert [5000, 2000, 1000, 500][..3] == [5000, 2000, 1000];
    assert GreedyPass(501, [5000, 2000, 1000, 500]) == (map[500 := 1], 1);
    assert [5000, 2000, 1000, 500, 250][..4] == [5000, 2000, 1000, 500];
  }

  /** Order 12001: two packs of 5000, one of 2000, and one of 250 for the last item. */
  lemma AllocateOrder12001()
    ensures Allocate(12001, [5000, 2000, 1000, 500, 250]) == map[5000 := 2, 2000 := 1, 250 := 1]
  {
    assert [5000, 2000][..1] == [5000];
    assert [5000, 2000, 1000][..2] == [5000, 2000];
    assert [5000, 2000, 1000, 500][..3] == [5000, 2000, 1000];
    assert [5000, 2000, 1000, 500, 250][..4] == [5000, 2000, 1000, 500];
    assert GreedyPass(12001, [5000]) == (map[5000 := 2], 2001);
    assert GreedyPass(12001, [5000, 2000]) == (map[5000 := 2, 2000 := 1], 1);
    GreedyPassBelowAll(1, [1000, 500, 250]);
  }

  /**
   * Order 251: the greedy pass takes one pack of 250 and the leftover item
   * a second one, although a single pack of 500 ships as many items.
   */
  lemma AllocateOrder251()
    ensures Allocate(251, [5000, 2000, 1000, 500, 250]) == map[250 := 2]
    ensures Shipped([5000, 2000, 1000, 500, 250], map[250 := 2]) == 500
    ensures Shipped([5000, 2000, 1000, 500, 250], map[500 := 1]) == 500
  {
    GreedyPassBelowAll(251, [5000, 2000, 1000, 500]);
    assert [5000, 2000, 1000, 500, 250][..4] == [5000, 2000, 1000, 500];
    assert [5000, 2000, 1000, 500][..3] == [5000, 2000, 1000];
    assert [5000, 2000, 1000][..2] == [5000, 2000];
    assert [5000, 2000][..1] == [5000];
  }

  /**
   * Sizes 12 and 5: orders 15 and 18 each get a pack of 12 first, so they
   * ship 17 and 22 items, where three or four packs of 5 ship 15 and 20.
   */
  lemma AllocateTwelveAndFive()
    ensures Allocate(15, [12, 5]) == map[12 := 1, 5 := 1]
    ensures Allocate(18, [12, 5]) == map[12 := 1, 5 := 2]
    ensures Shipped([12, 5], map[12 := 1, 5 := 1]) == 17
    ensures Shipped([12, 5], map[12 := 1, 5 := 2]) == 22
    ensures Shipped([12, 5], map[5 := 3]) == 15
    ensures Shipped([12, 5], map[5 := 4]) == 20
  {
    assert [12, 5][..1] == [12];
    assert GreedyPass(15, [12]) == (map[12 := 1], 3);
    assert GreedyPass(18, [12]) == (map[12 := 1], 6);
  }

  /**
   * The order `MinInt64` against the size -1: the quotient wraps around to
   * `MinInt64`, which is not positive, so that size takes no pack. With the
   * size -2 after it, all of the order goes into packs of -2.
   */
  lemma AllocateWrappedQuotient()
    ensures GoDiv(MinInt64, -1) == MinInt64
    ensures Allocate(MinInt64, [-1]) == map[]
    ensures Allocate(MinInt64, [-1, -2]) == map[-2 := 0x4000_0000_0000_0000]
  {
    assert [-1, -2][..1] == [-1];
    assert GreedyPass(MinInt64, [-1]) == (map[], MinInt64);
    assert GoDiv(MinInt64, -2) == 0x4000_0000_0000_0000;
  }
}
