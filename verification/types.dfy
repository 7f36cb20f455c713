/**
 * Values exchanged by the products service: the stored product row, the
 * request payloads, the paginated response and the errors it raises.
 *
 * The product table of the relational store is modelled as a map from id to
 * row. Its primary key, the id, is part of the type `Table`; its unique index
 * on `name` is the predicate `NamesUnique`, which every write of the store
 * preserves.
 */
module ProductTypes {

  datatype Option<T> = None | Some(value: T)

  /** The price column. The service never compares or computes with it. */
  type Price = real

  /** One row of the product table. */
  datatype Product = Product(id: int, name: string, price: Price, available: bool)

  /** Payload of `create`: the columns the caller supplies. */
  datatype CreateProductDto = CreateProductDto(name: string, price: Price)

  /** Payload of `update`: every field optional, and it may carry an `id`. */
  datatype UpdateProductDto = UpdateProductDto(id: Option<int>, name: Option<string>, price: Option<Price>)

  /** The `data` argument of a store update: the columns to overwrite. It has no `id`. */
  datatype RowChanges = RowChanges(name: Option<string>, price: Option<Price>, available: Option<bool>)

  datatype PaginationDto = PaginationDto(page: int, limit: int)

  datatype PageMeta = PageMeta(page: int, total: nat, lastPage: nat)

  datatype ProductPage = ProductPage(data: seq<Product>, meta: PageMeta)

  /** The two HTTP statuses the service attaches to the errors it raises. */
  datatype Status = BadRequest | InternalServerError

  datatype ServiceError =
      /** An error the service raises itself, with status and message. */
    | RpcError(status: Status, message: string)
      /** An error of the store that the service lets through untranslated. */
    | StoreError(code: string)

  datatype Result<T> = Ok(value: T) | Err(error: ServiceError)

  /** Store error codes: unique constraint violated, record to update not found. */
  const UniqueViolation := "P2002"
  const RecordNotFound := "P2025"

  const UniqueConstraintMessage := "Unique constraint failed on the fields: ('name')"
  const InternalErrorMessage := "Internal Server Error"
  const SomeNotFoundMessage := "Some products were not found"

  function NotFoundMessage(id: int): string
  {
    "Product with id #" + IntToString(id) + " not found"
  }

  /** Decimal rendering of an integer, as a template literal prints it. */
  function IntToString(n: int): string
  {
    if n < 0 then "-" + NatToString(-n) else NatToString(n)
  }

  function NatToString(n: nat): string
    decreases n
  {
    var digit := "0123456789"[n % 10];
    if n < 10 then [digit] else NatToString(n / 10) + [digit]
  }

  /** Primary key: the row stored under key `k` has id `k`. */
  predicate KeyedById(t: map<int, Product>)
  {
    forall k :: k in t ==> t[k].id == k
  }

  /** Unique index on `name`, over every row, available or not. */
  predicate NamesUnique(t: map<int, Product>)
  {
    forall a, b :: a in t && b in t && a != b ==> t[a].name != t[b].name
  }

  type Table = t: map<int, Product> | KeyedById(t) witness map[]
}
