# Ship-Manager pack registry and pack calculator, in Dafny

Ship-Manager answers one question: given an order of N items and a set of
pack sizes, which packs should be shipped? This project models the two pieces
of the Go code that do the work:

- **The pack-size registry** (`internal/repositories/package_repository.go`).
  It is a Go slice of distinct ints kept in strictly descending order. `Add`
  finds the insertion point with `sort.Search`. It rejects a size that is
  already present with `ErrSizeAlreadyExists`. Otherwise it grows the slice
  by one, shifts the tail right with `copy` and writes the new size.
  `DeleteAll` replaces the slice with an empty one. `GetSizes` returns a copy.
- **The package service** (`internal/services/package_service.go`).
  `AddPack`, `ClearPacks` and `GetPackSizes` delegate to the registry.
  `CalculatePacks` walks the sizes from largest to smallest. Each size takes
  `remaining / size` whole packs, and a count is recorded only when it is
  positive. If items are still uncovered at the end and any size exists, it
  adds one more pack of the smallest size.

The model has four modules:

- `PackSizes` (`pack_sizes.dfy`) is the value-level registry.
  - `StrictlyDescending` is the slice invariant.
  - `InsertionPoint` is the index `sort.Search` finds.
  - `Insert` is the result of one `Add`: the new slice or the duplicate error.
- `Repositories` (`package_repository.dfy`) holds the class `PackageRepository`.
  - The Go slice is a backing `array<int>` plus a length. The array's length plays the role of the slice's capacity.
  - `Search` is the binary search behind `sort.Search`, proved to return `InsertionPoint`.
  - `Add` is proved to leave the slice equal to `Insert` of the old slice. It is written as the Go code is: search, duplicate check, `Append`, then `ShiftRight` (the overlapping `copy`) and a store.
- `Allocation` (`allocation.dfy`) is the value-level calculator.
  - `GoDiv` is Go's integer division, which truncates toward zero.
  - `GreedyPass` is the state of the loop after a prefix of the sizes.
  - `Allocate` is the final answer.
  - `Shipped` is the number of items a set of packs holds.
- `Services` (`package_service.dfy`) holds the class `PackageService`. Its `CalculatePacks` is the Go loop, with the invariant that its state equals `GreedyPass` over the sizes visited so far.

The calculator's interface comment at `internal/services/package_service.go:17`
promises "the optimal combination of packs", and the tests at
`internal/services/package_service_test.go:74` and `:96-97` expect such
combinations ({500: 1} for 251 items, {5: 3} and {5: 4} for 15 and 18 items
against sizes 5 and 12). The code at `package_service.go:45-63` is a greedy
pass, and this model follows the code. `AllocateOrder251` and
`AllocateTwelveAndFive` prove what the code returns in those cases and how
many items each answer ships.

Nothing in the repository rejects a pack size of zero or less: the handler at
`internal/handlers/package_handler.go:38-45` passes on any `int` that
`strconv.Atoi` accepts, and `Add` checks only for duplicates. Accordingly,
`Insert` and `Add` take any `int`, and the calculator only requires that no
registered size is zero.

## Model

| member | source | states |
|---|---|---|
| PackSizes.InsertionPoint | internal/repositories/package_repository.go:55-57 | The index is at most the slice length. Every element before it is greater than `size`. The element at it, if any, is at most `size`. This is the first index satisfying the `sort.Search` predicate `packSizes[i] <= size`. |
| PackSizes.SplitPointUnique | internal/repositories/package_repository.go:55-57 | Any index that splits the slice into "greater than size" before it and "at most size" at it is the insertion point. The split point is unique. |
| PackSizes.InsertionPointSplits | internal/repositories/package_repository.go:55-57 | On a strictly descending slice, every element from the insertion point on is at most `size`. The predicate is monotone, as `sort.Search` requires. |
| PackSizes.Insert | internal/repositories/package_repository.go:50-70 | A successful insertion is one element longer. A failure happens only when the size is already in the slice. |
| PackSizes.InsertFailsIffPresent | internal/repositories/package_repository.go:59-62 | On a strictly descending slice, insertion fails exactly when the size is already present, in both directions. |
| PackSizes.InsertKeepsDescending | internal/repositories/package_repository.go:64-67 | Inserting an absent size succeeds. The size lands at the insertion point, the prefix before it is unchanged and every later element moves one place right. The result is still strictly descending. |
| PackSizes.InsertContents | internal/repositories/package_repository.go:64-67 | A successful insertion adds exactly the new size: its multiset is the old multiset plus `{size}`, and membership is old membership or the new size. |
| PackSizes.InsertIntoEmpty | internal/repositories/package_repository.go:55-67 | Inserting into an empty slice gives the one-element slice. |
| PackSizes.InsertLargest | internal/repositories/package_repository.go:55-67 | A size larger than the first element goes to the front. |
| PackSizes.InsertSmallest | internal/repositories/package_repository.go:55-67 | On a strictly descending slice, a size smaller than the last element goes to the back. |
| PackSizes.InsertInTurn | internal/repositories/pacakge_repository_test.go:13-22 | Inserting 500, 250, 1000, 2000 and 5000 in turn into an empty slice succeeds each time and ends at [5000, 2000, 1000, 500, 250]. |
| PackSizes.InsertAscending | internal/services/package_service_test.go:61-66 | Inserting 250, 500, 1000, 2000 and 5000 in turn puts each new size at the front. |
| PackSizes.InsertFiveThenTwelve | internal/services/package_service_test.go:88-90 | Inserting 5 and then 12 gives [12, 5]. |
| Repositories.PackageRepository.constructor | internal/repositories/package_repository.go:38-45 | A new registry is valid and holds no sizes. |
| Repositories.PackageRepository.Search | internal/repositories/package_repository.go:55-57 | The binary search returns an index that splits the slice into "greater than size" and "at most size". That index equals `InsertionPoint`. |
| Repositories.PackageRepository.Add | internal/repositories/package_repository.go:50-70 | It fails with `SizeAlreadyExists` exactly when the size was registered, and then the slice is unchanged. Otherwise the new slice is `Insert` of the old one. The registry stays valid, so the slice stays strictly descending. |
| Repositories.PackageRepository.Append | internal/repositories/package_repository.go:65 | Go's `append`: the slice becomes the old slice followed by the new element. The backing array is either the old one or a fresh one. |
| Repositories.ShiftRight | internal/repositories/package_repository.go:66 | Go's overlapping `copy(a[index+1:n], a[index:n])`: elements `index+1..n-1` take the old values of their left neighbours, and nothing else changes. |
| Repositories.PackageRepository.DeleteAll | internal/repositories/package_repository.go:73-77 | Afterwards the registry is valid and empty. |
| Repositories.PackageRepository.GetSizes | internal/repositories/package_repository.go:80-84 | It returns the registered sizes as a value, which is strictly descending. |
| Repositories.AddAndGetSizes | internal/repositories/pacakge_repository_test.go:10-26 | Adding 500, 250, 1000, 2000 and 5000 to a new registry succeeds every time and gives [5000, 2000, 1000, 500, 250]. |
| Repositories.AddDuplicateSize | internal/repositories/pacakge_repository_test.go:29-43 | Adding 1000 twice succeeds once and then fails with `SizeAlreadyExists`, leaving [1000]. |
| Repositories.DeleteAllEmpties | internal/repositories/pacakge_repository_test.go:45-65 | After `DeleteAll`, once or twice, `GetSizes` is empty. |
| Allocation.GoDiv | internal/services/package_service.go:51 | Go's `/` on ints truncates toward zero. The remainder `a - q*b` has the sign of the dividend and is smaller than the divisor in magnitude. The quotient is 0 when the dividend is smaller in magnitude than the divisor. The one overflowing quotient, `MinInt64 / -1`, wraps around to `MinInt64`. |
| Allocation.GreedyPass | internal/services/package_service.go:50-56 | From a non-negative order, the items still uncovered stay between 0 and the order, and below the last size visited when that size is positive. With positive sizes, an order of zero or less takes no packs. |
| Allocation.GreedyPassKeys | internal/services/package_service.go:52-53 | The loop records only sizes from the list, each with a positive count. |
| Allocation.GreedyPassBelowAll | internal/services/package_service.go:50-56 | When every size exceeds the order, the loop takes no packs and leaves the whole order uncovered. |
| Allocation.GreedyPassAccounts | internal/services/package_service.go:50-56 | The loop loses no items: items in the packs taken plus items still uncovered equal the order. |
| Allocation.Allocate | internal/services/package_service.go:45-63 | No sizes, or an order of 0, give the empty map. With positive sizes, a negative order also gives the empty map. |
| Allocation.AllocateKeys | internal/services/package_service.go:52-59 | The answer holds only registered sizes, each with a positive number of packs. |
| Allocation.ShippedOneMore | internal/services/package_service.go:58-60 | One more pack of the smallest size ships exactly that many more items. |
| Allocation.AllocateCovers | internal/services/package_service.go:45-63 | With positive, strictly descending sizes and a non-negative order, the packs hold at least the order. They hold fewer than order plus the smallest size. |
| Allocation.AllocateExact | internal/services/package_service.go:58-60 | If the loop leaves nothing uncovered, no extra pack is added and exactly the order is shipped. |
| Allocation.AllocateUpToSmallest | internal/services/package_service.go:45-63 | A positive order no larger than the smallest size gets exactly one pack of the smallest size. |
| Allocation.AllocateUpTo250 | internal/services/package_service_test.go:72-73 | Against 5000, 2000, 1000, 500 and 250, orders 1 and 250 get {250: 1}. |
| Allocation.AllocateOrder251 | internal/services/package_service_test.go:74 | Order 251 gets {250: 2}. That ships 500 items, as many as the {500: 1} the test expects. |
| Allocation.AllocateOrder501 | internal/services/package_service_test.go:75 | Order 501 gets {500: 1, 250: 1}. |
| Allocation.AllocateOrder12001 | internal/services/package_service_test.go:76 | Order 12001 gets {5000: 2, 2000: 1, 250: 1}. |
| Allocation.AllocateTwelveAndFive | internal/services/package_service_test.go:96-97 | Against 12 and 5, orders 15 and 18 get {12: 1, 5: 1} (17 items) and {12: 1, 5: 2} (22 items). The tests' {5: 3} and {5: 4} ship 15 and 20. |
| Allocation.AllocateWrappedQuotient | internal/services/package_service.go:50-56 | The order `MinInt64` against the size -1 takes no pack, because the quotient wraps around to `MinInt64`. Against -1 and -2, the whole order goes into 2^62 packs of -2. |
| Services.PackageService.constructor | internal/services/package_service.go:27-31 | The service wraps the given registry and is valid when the registry is. |
| Services.PackageService.AddPack | internal/services/package_service.go:33-35 | The same outcome and new state as the registry's `Add`. |
| Services.PackageService.ClearPacks | internal/services/package_service.go:37-39 | Afterwards the registry is empty. |
| Services.PackageService.GetPackSizes | internal/services/package_service.go:41-43 | It returns the registered sizes, strictly descending. |
| Services.PackageService.CalculatePacks | internal/services/package_service.go:45-63 | The result is `Allocate` of the order and the registered sizes. That ties the loop to the properties proved about `Allocate`: coverage, bounded overshoot and only registered keys. |
| Services.AddPacksLargestFirst | internal/services/package_service_test.go:47-58 | After clearing, adding 250, 500 and 1000 gives [1000, 500, 250]. |
| Services.ClearPacksEmpties | internal/services/package_service_test.go:37-45 | Adding 500 and then clearing leaves no sizes. |
| Services.StandardService | internal/services/package_service_test.go:61-66 | A new registry given 250, 500, 1000, 2000 and 5000 holds [5000, 2000, 1000, 500, 250]. |
| Services.CalculateStandardOrders | internal/services/package_service_test.go:68-84 | `CalculatePacks` on those sizes returns the maps above for orders 1, 250, 251, 501 and 12001. |
| Services.CalculateTwelveAndFive | internal/services/package_service_test.go:88-104 | With sizes 5 and 12, `CalculatePacks` returns {12: 1, 5: 1} for 15 and {12: 1, 5: 2} for 18. |

## Left out

- The `sync.Mutex` in `packCache` and its locking are not modelled. Every registry operation is treated as one atomic step, so concurrent callers are not modelled.
- HTTP handlers, routes, templates and `main` are not part of this model. Neither is the parsing of `size` and `order` from form values.
- Repositories.PackageRepository.Append: does not model Go's capacity-growth policy. When the slice is full, the model moves it to a new array of capacity `2 * length + 1`. Only the slice contents matter to the registry.
- Services.PackageService.CalculatePacks: requires that no registered size is zero. With a zero size, the Go code panics on integer division by zero, and the panic is not modelled. Negative sizes, which `Add` accepts, are modelled with Go's truncating division.
- Allocation.AllocateCovers: the coverage bound is proved only for non-negative orders and positive sizes. Outside that range the Go code still returns a map, and `Allocate` describes it, but no coverage bound holds.
- Go's `int` is 64 bits wide, and the model uses unbounded integers, reproducing the one overflow the calculator can reach. For 64-bit inputs, the only quotient that overflows is `MinInt64 / -1`, and `GoDiv` wraps it to `MinInt64` as Go does. No other step of `CalculatePacks` overflows: `count * size` and the new `remaining` are never larger in magnitude than the old `remaining`. The final `++` cannot reach the `int64` maximum either, since a count that large needs a size of 1 or -1, which leaves nothing over. Orders outside the 64-bit range, which `strconv.Atoi` rejects, are computed without wrapping.
- The optimal packing promised by the comment at `package_service.go:17` and expected by the tests at `package_service_test.go:74` and `:96-97` is not modelled. The code computes the greedy answer, and the model follows the code.
- The service tests share one service across subtests. Each scenario method here starts from a new registry and sets up the state its subtest relies on.
