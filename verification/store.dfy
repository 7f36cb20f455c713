/**
 * The product table of the store, reduced to the primitives the service
 * calls: reading rows by a set of ids in the store's order, inserting a row
 * and overwriting columns of one row. The store keeps rows in ascending id
 * order (the service asks for no other order), assigns the next id itself and
 * rejects any write that would give two rows the same name.
 */
module ProductStore {
  import opened ProductTypes

  predicate IsLeast(m: int, s: set<int>)
  {
    m in s && forall x :: x in s ==> m <= x
  }

  lemma {:induction false} LeastExists(s: set<int>)
    requires s != {}
    ensures exists m :: IsLeast(m, s)
  {
    if forall z :: z !in s {
      assert false;
    }
    var y :| y in s;
    if s == {y} {
      assert IsLeast(y, s);
    } else {
      var rest := s - {y};
      LeastExists(rest);
      var m :| IsLeast(m, rest);
      var least := if y < m then y else m;
      forall x | x in s
        ensures least <= x
      {
        if x != y {
          assert x in rest;
        }
      }
      assert IsLeast(least, s);
    }
  }

  function Least(s: set<int>): (m: int)
    requires s != {}
    ensures IsLeast(m, s)
  {
    LeastExists(s);
    var m :| m in s && IsLeast(m, s);
    m
  }

  /** The ids of `s` in ascending order. */
  function SortedIds(s: set<int>): (r: seq<int>)
    ensures |r| == |s|
    ensures forall x :: x in r <==> x in s
    ensures forall i, j :: 0 <= i < j < |r| ==> r[i] < r[j]
    decreases s
  {
    if s == {} then []
    else
      var m := Least(s);
      [m] + SortedIds(s - {m})
  }

  /** The rows whose ids are in `keys`, in the store's order: a `findMany` with an id filter. */
  function Select(t: Table, keys: set<int>): (rows: seq<Product>)
    requires keys <= t.Keys
    ensures |rows| == |keys|
    ensures forall i :: 0 <= i < |rows| ==> rows[i].id in keys && t[rows[i].id] == rows[i]
    ensures forall k :: k in keys ==> t[k] in rows
    ensures forall i, j :: 0 <= i < j < |rows| ==> rows[i].id < rows[j].id
  {
    var ids := SortedIds(keys);
    var rows := seq(|ids|, i requires 0 <= i < |ids| => t[ids[i]]);
    RowsOfIds(t, keys, ids, rows);
    rows
  }

  lemma RowsOfIds(t: Table, keys: set<int>, ids: seq<int>, rows: seq<Product>)
    requires keys <= t.Keys
    requires forall x :: x in ids <==> x in keys
    requires |rows| == |ids| && forall i :: 0 <= i < |ids| ==> ids[i] in t && rows[i] == t[ids[i]]
    ensures forall i :: 0 <= i < |rows| ==> rows[i].id in keys && t[rows[i].id] == rows[i]
    ensures forall k :: k in keys ==> t[k] in rows
  {
    forall i | 0 <= i < |rows|
      ensures rows[i].id in keys && t[rows[i].id] == rows[i]
    {
      assert ids[i] in ids;
      assert KeyedById(t) && t[ids[i]].id == ids[i];
    }
    forall k | k in keys
      ensures t[k] in rows
    {
      assert k in ids;
      var i :| 0 <= i < |ids| && ids[i] == k;
      assert rows[i] == t[k];
    }
  }

  /** The id the store gives the next inserted row: one more than the largest id in use. */
  function NextId(t: Table): (id: int)
    ensures id !in t
    ensures forall k :: k in t ==> k < id
  {
    var ids := SortedIds(t.Keys);
    if ids == [] then 1
    else
      assert forall k :: k in t ==> exists i :: 0 <= i < |ids| && ids[i] == k;
      ids[|ids| - 1] + 1
  }

  predicate NameUsed(t: Table, name: string)
  {
    exists k :: k in t && t[k].name == name
  }

  predicate NameUsedByOther(t: Table, name: string, id: int)
  {
    exists k :: k in t && k != id && t[k].name == name
  }

  /** Outcome of a store write: the written row and the new table, or an error code. */
  datatype Write = Written(row: Product, table: Table) | Rejected(code: string)

  /** The store's `create`: a new available row under a fresh id, unless the name is taken. */
  function Insert(t: Table, dto: CreateProductDto): (w: Write)
    ensures w.Rejected? <==> NameUsed(t, dto.name)
    ensures w.Rejected? ==> w.code == UniqueViolation
    ensures w.Written? ==> w.row.id !in t && w.table == t[w.row.id := w.row]
    ensures w.Written? ==> w.row.name == dto.name && w.row.price == dto.price && w.row.available
  {
    if NameUsed(t, dto.name) then Rejected(UniqueViolation)
    else
      var row := Product(NextId(t), dto.name, dto.price, true);
      Written(row, t[row.id := row])
  }

  /** A row with the given columns overwritten and every other column kept. */
  function Apply(row: Product, c: RowChanges): Product
  {
    Product(
      row.id,
      if c.name.Some? then c.name.value else row.name,
      if c.price.Some? then c.price.value else row.price,
      if c.available.Some? then c.available.value else row.available)
  }

  /** The store's `update` by id: fails on a missing id or on a name held by another row. */
  function Overwrite(t: Table, id: int, c: RowChanges): (w: Write)
    ensures id !in t ==> w == Rejected(RecordNotFound)
    ensures id in t ==> (w.Rejected? <==> c.name.Some? && NameUsedByOther(t, c.name.value, id))
    ensures id in t && w.Rejected? ==> w.code == UniqueViolation
    ensures w.Written? ==> id in t && w.row == Apply(t[id], c) && w.row.id == id
    ensures w.Written? ==> w.table == t[id := w.row] && w.table.Keys == t.Keys
  {
    if id !in t then Rejected(RecordNotFound)
    else if c.name.Some? && NameUsedByOther(t, c.name.value, id) then Rejected(UniqueViolation)
    else
      var row := Apply(t[id], c);
      Written(row, t[id := row])
  }
}
