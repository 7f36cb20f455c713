/**
 * `ProductsService` as an object: the product table it writes through is its
 * one field, and `create`, `update` and `remove` are methods that replace it.
 * Each method is proved to do what the matching transition of
 * `ProductCommands` says, and to keep the unique index on `name`.
 */
module Service {
  import opened ProductTypes
  import opened ProductStore
  import opened ProductQueries
  import opened ProductCommands

  class ProductsService {
    var table: Table

    /** The store's unique index on `name` holds. */
    ghost predicate Valid()
      reads this
    {
      NamesUnique(table)
    }

    constructor ()
      ensures Valid() && table == map[]
    {
      table := map[];
    }

    method Create(dto: CreateProductDto) returns (r: Result<Product>)
      requires Valid()
      modifies this
      ensures Valid()
      ensures Transition(r, table) == ProductCommands.Create(old(table), dto)
    {
      CreateKeepsNamesUnique(table, dto);
      match Insert(table, dto)
      case Written(row, next) =>
        table := next;
        r := Ok(row);
      case Rejected(code) =>
        r := Err(CreateError(code));
    }

    method Update(id: int, dto: UpdateProductDto) returns (r: Result<Product>)
      requires Valid()
      modifies this
      ensures Valid()
      ensures Transition(r, table) == ProductCommands.Update(old(table), id, dto)
    {
      UpdateKeepsNamesUnique(table, id, dto);
      var found := FindOne(table, id);
      if found.Err? {
        return found;
      }
      var data := StripId(dto);
      match Overwrite(table, id, data)
      case Written(row, next) =>
        table := next;
        r := Ok(row);
      case Rejected(code) =>
        r := Err(StoreError(code));
    }

    method Remove(id: int) returns (r: Result<Product>)
      requires Valid()
      modifies this
      ensures Valid()
      ensures Transition(r, table) == ProductCommands.Remove(old(table), id)
    {
      RemoveKeepsNamesUnique(table, id);
      var found := FindOne(table, id);
      if found.Err? {
        return found;
      }
      match Overwrite(table, id, RowChanges(None, None, Some(false)))
      case Written(row, next) =>
        table := next;
        r := Ok(row);
      case Rejected(code) =>
        r := Err(StoreError(code));
    }
  }
}
