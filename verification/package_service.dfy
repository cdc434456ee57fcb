/**
 * The package service: a thin layer over the registry whose one piece of
 * logic is the pack calculator.
 */
module Services {
  import opened PackSizes
  import opened Allocation
  import opened Repositories

  class PackageService {
    /** The registry the service delegates to; the service never replaces it. */
    const repository: PackageRepository

    ghost predicate Valid()
      reads repository, repository.Repr
    {
      repository.Valid()
    }

    /** A service over `repository`. */
    constructor (repository: PackageRepository)
      requires repository.Valid()
      ensures this.repository == repository && Valid()
    {
      this.repository := repository;
    }

    /** Registers `size`; the registry decides, and reports a duplicate. */
    method AddPack(size: int) returns (outcome: Outcome)
      requires Valid()
      modifies repository.Repr
      ensures Valid() && fresh(repository.Repr - old(repository.Repr))
      ensures outcome.Fail? <==> size in old(repository.Contents())
      ensures outcome.Fail? ==> outcome.error == SizeAlreadyExists && repository.Contents() == old(repository.Contents())
      ensures outcome.Pass? ==> Insert(old(repository.Contents()), size) == Success(repository.Contents())
    {
      outcome := repository.Add(size);
    }

    /** Removes every registered size. */
    method ClearPacks()
      requires Valid()
      modifies repository.Repr
      ensures Valid() && fresh(repository.Repr - old(repository.Repr))
      ensures repository.Contents() == []
    {
      repository.DeleteAll();
    }

    /** The registered sizes, largest first. */
    method GetPackSizes() returns (sizes: seq<int>)
      requires Valid()
      ensures sizes == repository.Contents()
      ensures StrictlyDescending(sizes)
    {
      sizes := repository.GetSizes();
    }

    /**
     * Packs for an order of `order` items. Going from the largest size to the
     * smallest, each size takes as many whole packs as fit into what is still
     * uncovered; if anything is left, one more pack of the smallest size is
     * added. The registry must hold no zero size: Go's division by zero would
     * panic.
     */
    method CalculatePacks(order: int) returns (result: map<int, int>)
      requires Valid()
      requires NonZero(repository.Contents())
      ensures result == Allocate(order, repository.Contents())
    {
      result := map[];
      var remaining := order;
      var packSizes := repository.GetSizes();

      var i := 0;
      while i < |packSizes|
        invariant 0 <= i <= |packSizes|
        invariant result == GreedyPass(order, packSizes[..i]).0
        invariant remaining == GreedyPass(order, packSizes[..i]).1
      {
        GreedyPassStep(order, packSizes, i);
        var size := packSizes[i];
        var count := GoDiv(remaining, size);
        if count > 0 {
          result := result[size := count];
          remaining := remaining - count * size;
        }
        i := i + 1;
      }
      assert packSizes[..i] == packSizes;

      AllocateAfterPass(order, packSizes, result, remaining);
      if remaining > 0 && |packSizes| > 0 {
        var smallest := packSizes[|packSizes| - 1];
        result := result[smallest := Count(result, smallest) + 1];
      }
    }
  }

  /** Adding 250, 500 and 1000 after clearing lists them largest first. */
  method AddPacksLargestFirst() returns (sizes: seq<int>)
    ensures sizes == [1000, 500, 250]
  {
    var repo := new PackageRepository();
    var service := new PackageService(repo);
    InsertAscending();
    service.ClearPacks();
    var _ := service.AddPack(250);
    var _ := service.AddPack(500);
    var _ := service.AddPack(1000);
    sizes := service.GetPackSizes();
  }

  /** Adding 500 and then clearing leaves no sizes. */
  method ClearPacksEmpties() returns (sizes: seq<int>)
    ensures sizes == []
  {
    var repo := new PackageRepository();
    var service := new PackageService(repo);
    var _ := service.AddPack(500);
    service.ClearPacks();
    sizes := service.GetPackSizes();
  }

  /** A service over a new registry holding 250, 500, 1000, 2000 and 5000, added in that order. */
  method StandardService() returns (service: PackageService)
    ensures service.Valid()
    ensures service.repository.Contents() == [5000, 2000, 1000, 500, 250]
  {
    var repo := new PackageRepository();
    InsertAscending();
    var _ := repo.Add(250);
    var _ := repo.Add(500);
    var _ := repo.Add(1000);
    var _ := repo.Add(2000);
    var _ := repo.Add(5000);
    service := new PackageService(repo);
  }

  /**
   * Orders against sizes 250, 500, 1000, 2000 and 5000. Order 251 gets two
   * packs of 250, not the single pack of 500 that ships as many items.
   */
  method CalculateStandardOrders() returns (r1: map<int, int>, r250: map<int, int>, r251: map<int, int>, r501: map<int, int>, r12001: map<int, int>)
    ensures r1 == map[250 := 1] && r250 == map[250 := 1]
    ensures r251 == map[250 := 2]
    ensures r501 == map[500 := 1, 250 := 1]
    ensures r12001 == map[5000 := 2, 2000 := 1, 250 := 1]
  {
    var service := StandardService();
    AllocateUpTo250();
    AllocateOrder251();
    AllocateOrder501();
    AllocateOrder12001();
    r1 := service.CalculatePacks(1);
    r250 := service.CalculatePacks(250);
    r251 := service.CalculatePacks(251);
    r501 := service.CalculatePacks(501);
    r12001 := service.CalculatePacks(12001);
  }

  /** Sizes 5 and 12: orders 15 and 18 each take a pack of 12 first. */
  method CalculateTwelveAndFive() returns (r15: map<int, int>, r18: map<int, int>)
    ensures r15 == map[12 := 1, 5 := 1]
    ensures r18 == map[12 := 1, 5 := 2]
  {
    var repo := new PackageRepository();
    var service := new PackageService(repo);
    InsertFiveThenTwelve();
    var _ := service.AddPack(5);
    var _ := service.AddPack(12);
    AllocateTwelveAndFive();
    r15 := service.CalculatePacks(15);
    r18 := service.CalculatePacks(18);
  }
}
