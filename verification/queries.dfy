/**
 * The read operations of the products service: `findAll` (a page of the
 * available products), `findOne` (one available product by id) and
 * `validateProducts` (existence of a batch of ids, available or not). Each is
 * a function of the product table.
 */
module ProductQueries {
  import opened ProductTypes
  import opened ProductStore

  function Min(a: int, b: int): int
  {
    if a <= b then a else b
  }

  /** Ids of the rows that reads may see: those still available. */
  function AvailableIds(t: Table): set<int>
  {
    set k | k in t && t[k].available
  }

  /** Every available product, in the store's order: `findMany` filtered on `available`. */
  function Listing(t: Table): (rows: seq<Product>)
    ensures |rows| == |AvailableIds(t)|
    ensures forall i :: 0 <= i < |rows| ==> rows[i].id in AvailableIds(t) && t[rows[i].id] == rows[i]
    ensures forall k :: k in AvailableIds(t) ==> t[k] in rows
    ensures forall i, j :: 0 <= i < j < |rows| ==> rows[i].id < rows[j].id
  {
    Select(t, AvailableIds(t))
  }

  /** Up to `take` rows starting at position `skip`, as the store's `skip`/`take` return them. */
  function Window(rows: seq<Product>, skip: nat, take: nat): (w: seq<Product>)
    ensures |w| == if skip >= |rows| then 0 else Min(take, |rows| - skip)
    ensures forall i :: 0 <= i < |w| ==> skip + i < |rows| && w[i] == rows[skip + i]
  {
    if skip >= |rows| then [] else rows[skip..Min(skip + take, |rows|)]
  }

  /** `Math.ceil(n / d)` for a count `n` and a positive divisor `d`. */
  function CeilDiv(n: nat, d: int): (q: nat)
    requires d >= 1
    ensures n <= q * d < n + d
    ensures n == 0 ==> q == 0
  {
    var q := (n + d - 1) / d;
    var r := (n + d - 1) % d;
    assert n + d - 1 == q * d + r && 0 <= r < d;
    q
  }

  /** Rows skipped before the requested page. */
  function Skip(p: PaginationDto): nat
    requires p.page >= 1 && p.limit >= 1
  {
    (p.page - 1) * p.limit
  }

  /** `findAll`: the requested page of available products and the paging metadata. */
  function FindAll(t: Table, p: PaginationDto): (r: ProductPage)
    requires p.page >= 1 && p.limit >= 1
    ensures r.meta.page == p.page
    ensures r.meta.total == |AvailableIds(t)|
    ensures r.meta.total <= r.meta.lastPage * p.limit < r.meta.total + p.limit
    ensures r.meta.total == 0 ==> r.meta.lastPage == 0
    ensures |r.data| <= p.limit
    ensures |r.data| == if Skip(p) >= r.meta.total then 0 else Min(p.limit, r.meta.total - Skip(p))
    ensures forall i :: 0 <= i < |r.data| ==> Skip(p) + i < |Listing(t)| && r.data[i] == Listing(t)[Skip(p) + i]
    ensures forall x :: x in r.data ==> x.available && x.id in t && t[x.id] == x
  {
    var total := |AvailableIds(t)|;
    var products := Window(Listing(t), Skip(p), p.limit);
    var lastPage := CeilDiv(total, p.limit);
    ProductPage(products, PageMeta(p.page, total, lastPage))
  }

  lemma {:induction false} MulMonotone(a: int, b: int, c: int)
    requires a <= b && c >= 0
    ensures a * c <= b * c
  {
    assert b * c - a * c == (b - a) * c;
  }

  /** Page arithmetic: page `page` starts before `total` exactly when `page <= lastPage`. */
  lemma {:induction false} PageStartsBeforeEnd(page: int, limit: int, total: nat, lastPage: nat)
    requires page >= 1 && limit >= 1
    requires total <= lastPage * limit < total + limit
    ensures (page - 1) * limit < total <==> page <= lastPage
  {
    if page <= lastPage {
      MulMonotone(page - 1, lastPage - 1, limit);
      assert (lastPage - 1) * limit == lastPage * limit - limit;
    } else {
      MulMonotone(lastPage, page - 1, limit);
    }
  }

  /** A page holds products exactly when its number is at most `lastPage`. */
  lemma {:induction false} PageNonEmptyIff(t: Table, p: PaginationDto)
    requires p.page >= 1 && p.limit >= 1
    ensures FindAll(t, p).data != [] <==> p.page <= FindAll(t, p).meta.lastPage
  {
    var r := FindAll(t, p);
    PageStartsBeforeEnd(p.page, p.limit, r.meta.total, r.meta.lastPage);
  }

  /** Position `i` lies within page `i / limit + 1`. */
  lemma PageOfPosition(i: nat, limit: int) returns (page: int)
    requires limit >= 1
    ensures page >= 1
    ensures Skip(PaginationDto(page, limit)) <= i < Skip(PaginationDto(page, limit)) + limit
  {
    page := i / limit + 1;
    assert i == (i / limit) * limit + i % limit;
  }

  /** The row at position `i` of a sequence is in every window that covers `i`. */
  lemma InWindow(rows: seq<Product>, skip: nat, take: nat, i: int)
    requires skip <= i < skip + take && i < |rows|
    ensures rows[i] in Window(rows, skip, take)
  {
    assert Window(rows, skip, take)[i - skip] == rows[i];
  }

  /** Every available product is listed on some page between 1 and `lastPage`. */
  lemma {:induction false} ListedOnSomePage(t: Table, limit: int, k: int)
    requires limit >= 1 && k in t && t[k].available
    ensures exists page :: 1 <= page && page <= FindAll(t, PaginationDto(page, limit)).meta.lastPage &&
                           t[k] in FindAll(t, PaginationDto(page, limit)).data
  {
    var rows := Listing(t);
    assert k in AvailableIds(t);
    if forall i :: 0 <= i < |rows| ==> rows[i] != t[k] {
      assert false;
    }
    var i :| 0 <= i < |rows| && rows[i] == t[k];
    var page := PageOfPosition(i, limit);
    var p := PaginationDto(page, limit);
    InWindow(rows, Skip(p), limit, i);
    PageNonEmptyIff(t, p);
  }

  /** Positions in the listing are determined by the product: ids strictly increase. */
  lemma PositionUnique(t: Table, a: int, b: int)
    requires 0 <= a < |Listing(t)| && 0 <= b < |Listing(t)|
    requires Listing(t)[a] == Listing(t)[b]
    ensures a == b
  {
  }

  /** Page arithmetic: a position lies in the window of one page only. */
  lemma {:induction false} WindowsDisjoint(page1: int, page2: int, limit: int, j: int)
    requires page1 >= 1 && page2 >= 1 && limit >= 1
    requires Skip(PaginationDto(page1, limit)) <= j < Skip(PaginationDto(page1, limit)) + limit
    requires Skip(PaginationDto(page2, limit)) <= j < Skip(PaginationDto(page2, limit)) + limit
    ensures page1 == page2
  {
    if page1 < page2 {
      MulMonotone(page1, page2 - 1, limit);
    } else if page2 < page1 {
      MulMonotone(page2, page1 - 1, limit);
    }
  }

  /** A row of a window sits at some position from `skip` up to, not including, `skip + take`. */
  lemma WindowOffset(rows: seq<Product>, skip: nat, take: nat, x: Product) returns (j: int)
    requires x in Window(rows, skip, take)
    ensures skip <= j < skip + take && j < |rows| && rows[j] == x
  {
    var w := Window(rows, skip, take);
    if forall i :: 0 <= i < |w| ==> w[i] != x {
      assert false;
    }
    var i :| 0 <= i < |w| && w[i] == x;
    j := skip + i;
  }

  /** A product on a page sits at position `Skip(p) + i` of the listing, for some `i` below the limit. */
  lemma OffsetOnPage(t: Table, p: PaginationDto, x: Product) returns (j: int)
    requires p.page >= 1 && p.limit >= 1
    requires x in FindAll(t, p).data
    ensures Skip(p) <= j < Skip(p) + p.limit && j < |Listing(t)| && Listing(t)[j] == x
  {
    assert FindAll(t, p).data == Window(Listing(t), Skip(p), p.limit);
    j := WindowOffset(Listing(t), Skip(p), p.limit, x);
  }

  /** No product is listed on two different pages. */
  lemma {:induction false} ListedOnAtMostOnePage(t: Table, limit: int, x: Product, page1: int, page2: int)
    requires limit >= 1 && page1 >= 1 && page2 >= 1
    requires x in FindAll(t, PaginationDto(page1, limit)).data
    requires x in FindAll(t, PaginationDto(page2, limit)).data
    ensures page1 == page2
  {
    var p1, p2 := PaginationDto(page1, limit), PaginationDto(page2, limit);
    var j1 := OffsetOnPage(t, p1, x);
    var j2 := OffsetOnPage(t, p2, x);
    PositionUnique(t, j1, j2);
    WindowsDisjoint(page1, page2, limit, j1);
  }

  /** `findOne`: the first row with this id that is still available. */
  function FindOne(t: Table, id: int): (r: Result<Product>)
    ensures r.Ok? <==> id in t && t[id].available
    ensures r.Ok? ==> r.value == t[id] && r.value.id == id
    ensures r.Err? ==> r.error == RpcError(BadRequest, NotFoundMessage(id))
  {
    var matches := set k | k in t && t[k].id == id && t[k].available;
    if id in t && t[id].available then
      assert id in matches;
      Ok(t[Least(matches)])
    else
      Err(RpcError(BadRequest, NotFoundMessage(id)))
  }

  /** `findOne` succeeds exactly for the ids that `findAll` lists. */
  lemma FindOneMatchesListing(t: Table, id: int)
    ensures FindOne(t, id).Ok? <==> exists i :: 0 <= i < |Listing(t)| && Listing(t)[i].id == id
  {
    if FindOne(t, id).Ok? {
      var i :| 0 <= i < |Listing(t)| && Listing(t)[i] == t[id];
    }
  }

  /** The ids in order of first occurrence, each once: `Array.from(new Set(ids))`. */
  function Dedup(ids: seq<int>): (r: seq<int>)
    ensures forall x :: x in r <==> x in ids
    ensures forall i, j :: 0 <= i < j < |r| ==> r[i] != r[j]
  {
    if ids == [] then []
    else
      var rest := Dedup(ids[..|ids| - 1]);
      var last := ids[|ids| - 1];
      assert forall x :: x in ids <==> x in ids[..|ids| - 1] || x == last;
      if last in rest then rest else rest + [last]
  }

  lemma {:induction false} DistinctCount(s: seq<int>)
    requires forall i, j :: 0 <= i < j < |s| ==> s[i] != s[j]
    ensures |set x | x in s| == |s|
  {
    if s != [] {
      var init := s[..|s| - 1];
      DistinctCount(init);
      assert (set x | x in s) == (set x | x in init) + {s[|s| - 1]};
      assert s[|s| - 1] !in init;
    }
  }

  lemma {:induction false} SameSizeSubset(a: set<int>, b: set<int>)
    requires a <= b && |a| == |b|
    ensures a == b
  {
    assert b == a + (b - a);
    assert |b - a| == 0;
    if x :| x in b - a {
      assert false;
    }
  }

  /** The store finds as many rows as there are distinct ids exactly when every id exists. */
  lemma {:induction false} CountMatchesIff(t: Table, ids: seq<int>)
    ensures |set id | id in Dedup(ids) && id in t| == |Dedup(ids)| <==> forall id :: id in ids ==> id in t
  {
    var unique := Dedup(ids);
    var distinct := set id | id in unique;
    var wanted := set id | id in unique && id in t;
    DistinctCount(unique);
    if |wanted| == |unique| {
      SameSizeSubset(wanted, distinct);
      assert forall id :: id in ids ==> id in distinct;
    } else {
      assert wanted != distinct;
    }
  }

  /** The rows the store finds for the distinct ids: stored rows that were asked for, including every stored requested id. */
  lemma FoundRows(t: Table, ids: seq<int>, products: seq<Product>)
    requires products == Select(t, set id | id in Dedup(ids) && id in t)
    ensures forall x :: x in products ==> x.id in ids && x.id in t && t[x.id] == x
    ensures forall id :: id in ids && id in t ==> t[id] in products
  {
  }

  /** What the row count check of `validateProducts` decides, and the count when it passes. */
  lemma {:induction false} FoundCount(t: Table, ids: seq<int>, products: seq<Product>)
    requires products == Select(t, set id | id in Dedup(ids) && id in t)
    ensures |products| == |Dedup(ids)| <==> forall id :: id in ids ==> id in t
    ensures |products| == |Dedup(ids)| ==> |products| == |set id | id in ids|
  {
    CountMatchesIff(t, ids);
    DistinctCount(Dedup(ids));
    assert (set id | id in Dedup(ids)) == (set id | id in ids);
  }

  /** `validateProducts`: every distinct id must name a row, whether available or not. */
  function ValidateProducts(t: Table, ids: seq<int>): (r: Result<seq<Product>>)
    ensures r.Ok? <==> forall id :: id in ids ==> id in t
    ensures r.Err? ==> r.error == RpcError(BadRequest, SomeNotFoundMessage)
    ensures r.Ok? ==> |r.value| == |set id | id in ids|
    ensures r.Ok? ==> forall x :: x in r.value ==> x.id in ids && t[x.id] == x
    ensures r.Ok? ==> forall id :: id in ids ==> t[id] in r.value
    ensures r.Ok? ==> forall i, j :: 0 <= i < j < |r.value| ==> r.value[i].id < r.value[j].id
  {
    var unique := Dedup(ids);
    var products := Select(t, set id | id in unique && id in t);
    FoundRows(t, ids, products);
    FoundCount(t, ids, products);
    if |products| != |unique| then
      Err(RpcError(BadRequest, SomeNotFoundMessage))
    else
      Ok(products)
  }
}
