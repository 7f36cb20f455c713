/**
 * The write operations of the products service: `create`, `update` and
 * `remove`, each a transition from the product table before the call to the
 * result of the call and the table after it. `update` and `remove` first run
 * the `findOne` guard, so both see only available products; `remove` is a
 * soft delete that only clears `available`.
 */
module ProductCommands {
  import opened ProductTypes
  import opened ProductStore
  import opened ProductQueries

  /** What one call returns and the table it leaves behind. */
  datatype Transition = Transition(result: Result<Product>, table: Table)

  /** The catch block of `create`: a uniqueness violation is a bad request, anything else internal. */
  function CreateError(code: string): (e: ServiceError)
    ensures e.RpcError?
    ensures e.status == BadRequest <==> code == UniqueViolation
    ensures e.status == BadRequest ==> e.message == UniqueConstraintMessage
    ensures e.status == InternalServerError ==> e.message == InternalErrorMessage
  {
    if code == UniqueViolation then RpcError(BadRequest, UniqueConstraintMessage)
    else RpcError(InternalServerError, InternalErrorMessage)
  }

  /** `create`: insert the payload as a new available row, translating the store's errors. */
  function Create(t: Table, dto: CreateProductDto): (s: Transition)
    ensures s.result.Err? <==> NameUsed(t, dto.name)
    ensures s.result.Err? ==> s.result.error == RpcError(BadRequest, UniqueConstraintMessage) && s.table == t
    ensures s.result.Ok? ==> s.result.value.id !in t && s.table == t[s.result.value.id := s.result.value]
    ensures s.result.Ok? ==> s.result.value.name == dto.name && s.result.value.price == dto.price
    ensures s.result.Ok? ==> s.result.value.available
  {
    match Insert(t, dto)
    case Written(row, next) => Transition(Ok(row), next)
    case Rejected(code) => Transition(Err(CreateError(code)), t)
  }

  /** The update payload without its `id`: the only columns `update` may write. */
  function StripId(dto: UpdateProductDto): RowChanges
  {
    RowChanges(dto.name, dto.price, None)
  }

  /** `update`: the `findOne` guard, then a partial overwrite of the row's name and price. */
  function Update(t: Table, id: int, dto: UpdateProductDto): (s: Transition)
    ensures FindOne(t, id).Err? ==> s == Transition(FindOne(t, id), t)
    ensures s.result.Ok? <==> FindOne(t, id).Ok? && !(dto.name.Some? && NameUsedByOther(t, dto.name.value, id))
    ensures s.result.Err? ==> s.table == t
    ensures FindOne(t, id).Ok? && s.result.Err? ==> s.result.error == StoreError(UniqueViolation)
    ensures s.result.Ok? ==> s.result.value.id == id && s.table == t[id := s.result.value]
    ensures s.result.Ok? ==> s.result.value.name == (if dto.name.Some? then dto.name.value else t[id].name)
    ensures s.result.Ok? ==> s.result.value.price == (if dto.price.Some? then dto.price.value else t[id].price)
    ensures s.result.Ok? ==> s.result.value.available
    ensures s.table.Keys == t.Keys
  {
    var data := StripId(dto);
    match FindOne(t, id)
    case Err(e) => Transition(Err(e), t)
    case Ok(_) =>
      match Overwrite(t, id, data)
      case Written(row, next) => Transition(Ok(row), next)
      case Rejected(code) => Transition(Err(StoreError(code)), t)
  }

  /** `remove`: the `findOne` guard, then `available := false` on that row. */
  function Remove(t: Table, id: int): (s: Transition)
    ensures s.result.Ok? <==> FindOne(t, id).Ok?
    ensures s.result.Err? ==> s == Transition(FindOne(t, id), t)
    ensures s.result.Ok? ==> s.result.value == t[id].(available := false)
    ensures s.result.Ok? ==> s.table == t[id := s.result.value]
    ensures s.table.Keys == t.Keys
  {
    match FindOne(t, id)
    case Err(e) => Transition(Err(e), t)
    case Ok(_) =>
      match Overwrite(t, id, RowChanges(None, None, Some(false)))
      case Written(row, next) => Transition(Ok(row), next)
      case Rejected(code) => Transition(Err(StoreError(code)), t)
  }

  /** The unique index on `name` holds after every `create`. */
  lemma CreateKeepsNamesUnique(t: Table, dto: CreateProductDto)
    requires NamesUnique(t)
    ensures NamesUnique(Create(t, dto).table)
  {
  }

  /** The unique index on `name` holds after every `update`. */
  lemma UpdateKeepsNamesUnique(t: Table, id: int, dto: UpdateProductDto)
    requires NamesUnique(t)
    ensures NamesUnique(Update(t, id, dto).table)
  {
  }

  /** The unique index on `name` holds after every `remove`. */
  lemma RemoveKeepsNamesUnique(t: Table, id: int)
    requires NamesUnique(t)
    ensures NamesUnique(Remove(t, id).table)
  {
  }

  /** A created product is visible to `findOne`. */
  lemma CreateThenFindOne(t: Table, dto: CreateProductDto)
    requires Create(t, dto).result.Ok?
    ensures var s := Create(t, dto);
      FindOne(s.table, s.result.value.id) == Ok(s.result.value)
  {
  }

  /** Writing one row changes the available ids at that row's key only. */
  lemma AvailableAfterWrite(t: Table, row: Product)
    requires KeyedById(t[row.id := row])
    ensures AvailableIds(t[row.id := row]) == (AvailableIds(t) - {row.id}) + (if row.available then {row.id} else {})
  {
  }

  /** A successful `create` adds one product to `findAll`'s total. */
  lemma {:induction false} CreateIncrementsTotal(t: Table, dto: CreateProductDto)
    requires Create(t, dto).result.Ok?
    ensures |AvailableIds(Create(t, dto).table)| == |AvailableIds(t)| + 1
  {
    var s := Create(t, dto);
    var row := s.result.value;
    AvailableAfterWrite(t, row);
    assert row.id !in AvailableIds(t);
    assert AvailableIds(s.table) == AvailableIds(t) + {row.id};
  }

  /** After a successful `remove`, `findOne`, `update` and a second `remove` of that id all fail as not found. */
  lemma RemoveHidesProduct(t: Table, id: int, dto: UpdateProductDto)
    requires Remove(t, id).result.Ok?
    ensures var after := Remove(t, id).table;
      FindOne(after, id) == Err(RpcError(BadRequest, NotFoundMessage(id)))
    ensures var after := Remove(t, id).table;
      Remove(after, id) == Transition(Err(RpcError(BadRequest, NotFoundMessage(id))), after)
    ensures var after := Remove(t, id).table;
      Update(after, id, dto) == Transition(Err(RpcError(BadRequest, NotFoundMessage(id))), after)
  {
  }

  /** A successful `remove` takes one product off `findAll`'s total. */
  lemma {:induction false} RemoveDecrementsTotal(t: Table, id: int)
    requires Remove(t, id).result.Ok?
    ensures |AvailableIds(Remove(t, id).table)| == |AvailableIds(t)| - 1
  {
    var s := Remove(t, id);
    AvailableAfterWrite(t, s.result.value);
    assert AvailableIds(s.table) == AvailableIds(t) - {id};
  }

  /** `validateProducts` ignores `available`: a `remove` never changes whether a batch validates. */
  lemma RemoveKeepsValidation(t: Table, id: int, ids: seq<int>)
    ensures ValidateProducts(Remove(t, id).table, ids).Ok? == ValidateProducts(t, ids).Ok?
  {
  }

  /** A removed product keeps its name: creating another product with that name still fails. */
  lemma RemovedNameStaysTaken(t: Table, id: int, dto: CreateProductDto)
    requires Remove(t, id).result.Ok? && dto.name == t[id].name
    ensures Create(Remove(t, id).table, dto).result == Err(RpcError(BadRequest, UniqueConstraintMessage))
  {
  }

  /** Any `id` in the update payload is dropped: it has no effect on the call at all. */
  lemma UpdateIgnoresPayloadId(t: Table, id: int, dto: UpdateProductDto, other: Option<int>)
    ensures Update(t, id, dto) == Update(t, id, dto.(id := other))
  {
  }

  /** Create a product, list it, remove it, then list again and look it up: the lifecycle of one product. */
  lemma WidgetLifecycle()
    ensures var created := Create(map[], CreateProductDto("Widget", 9.99));
      created.result == Ok(Product(1, "Widget", 9.99, true)) &&
      FindAll(created.table, PaginationDto(1, 10)) ==
        ProductPage([Product(1, "Widget", 9.99, true)], PageMeta(1, 1, 1))
    ensures var created := Create(map[], CreateProductDto("Widget", 9.99));
      var removed := Remove(created.table, 1);
      removed.result == Ok(Product(1, "Widget", 9.99, false)) &&
      FindAll(removed.table, PaginationDto(1, 10)) == ProductPage([], PageMeta(1, 0, 0)) &&
      FindOne(removed.table, 1) == Err(RpcError(BadRequest, NotFoundMessage(1)))
  {
  }
}
