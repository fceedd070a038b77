/** The category store behind the use cases: a table of rows changed in place by
    create, update and deleteById, and read by findById and findAll. */
module Gateway {
  import opened Wrappers
  import opened Validation
  import opened Categories
  import opened Search

  /** The store's operations; one listed among the store's faults raises instead of running. */
  datatype Operation = CreateOp | UpdateOp | DeleteByIdOp | FindByIdOp | FindAllOp

  predicate Distinct(s: seq<CategoryId>) {
    forall i, j :: 0 <= i < j < |s| ==> s[i] != s[j]
  }

  /** s without id, the rest in order. */
  function RemoveId(s: seq<CategoryId>, id: CategoryId): (r: seq<CategoryId>)
    ensures forall x :: x in r <==> x in s && x != id
    ensures Distinct(s) ==> Distinct(r)
    ensures id !in s ==> r == s
  {
    if s == [] then []
    else if s[0] == id then RemoveId(s[1..], id)
    else
      assert Distinct(s) ==> s[0] !in s[1..];
      [s[0]] + RemoveId(s[1..], id)
  }

  /** A list without repetitions has as many elements as its set of elements. */
  lemma {:induction false} DistinctCardinality(s: seq<CategoryId>)
    requires Distinct(s)
    ensures |set x | x in s| == |s|
  {
    if s != [] {
      DistinctCardinality(s[1..]);
      assert (set x | x in s) == (set x | x in s[1..]) + {s[0]};
      assert s[0] !in s[1..];
    }
  }

  /** The in-memory category table. Rows are kept by identifier; order records the
      order in which they were first stored, which is the order a search starts from. */
  class CategoryGateway {
    var table: map<CategoryId, CategoryRow>
    var order: seq<CategoryId>
    var faults: map<Operation, string>

    ghost predicate Valid()
      reads this
    {
      && Distinct(order)
      && (forall id :: id in order <==> id in table)
      && (forall id :: id in table ==> table[id].id == id && table[id].Consistent())
    }

    /** An empty table on which every operation succeeds. */
    constructor Empty()
      ensures Valid() && table == map[] && order == [] && faults == map[]
    {
      table := map[];
      order := [];
      faults := map[];
    }

    /** The number of stored rows: one per identifier, and as many as order lists. */
    function Count(): (n: nat)
      reads this
      requires Valid()
      ensures n == |order|
    {
      DistinctCardinality(order);
      assert table.Keys == set x | x in order;
      |table|
    }

    /** The stored rows in the order they were first stored. */
    function Rows(): (rows: seq<CategoryRow>)
      reads this
      requires Valid()
      ensures |rows| == Count()
      ensures forall i :: 0 <= i < |rows| ==> rows[i] == table[order[i]]
      ensures forall id :: id in table ==> table[id] in rows
    {
      var rows := seq(|order|, i reads this requires 0 <= i < |order| && Valid() => table[order[i]]);
      assert forall id :: id in table ==> exists i :: 0 <= i < |order| && order[i] == id && rows[i] == table[id];
      rows
    }

    /** From now on, op raises an exception carrying message. */
    method FailOn(op: Operation, message: string)
      modifies this
      ensures faults == old(faults)[op := message]
      ensures table == old(table) && order == old(order)
    {
      faults := faults[op := message];
    }

    /** Storing a row: it replaces a row with the same identifier, or is added last. */
    method Save(row: CategoryRow)
      requires Valid() && row.Consistent()
      modifies this
      ensures Valid() && faults == old(faults)
      ensures table == old(table)[row.id := row]
      ensures order == if row.id in old(table) then old(order) else old(order) + [row.id]
    {
      if row.id !in table {
        order := order + [row.id];
      }
      table := table[row.id := row];
    }

    /** create(category): stores the category and returns what was stored. */
    method Create(c: Category) returns (r: Raises<CategoryRow>)
      requires Valid() && c.Valid()
      modifies this
      ensures Valid() && faults == old(faults)
      ensures CreateOp in faults ==>
                r == Raised(Unexpected(faults[CreateOp])) && table == old(table) && order == old(order)
      ensures CreateOp !in faults ==> r == Normal(c.Snapshot())
      ensures CreateOp !in faults ==> table == old(table)[c.id := c.Snapshot()]
      ensures CreateOp !in faults ==>
                order == if c.id in old(table) then old(order) else old(order) + [c.id]
      ensures CreateOp !in faults ==>
                Count() == if c.id in old(table) then old(Count()) else old(Count()) + 1
      ensures CreateOp !in faults && FindByIdOp !in faults ==> FindById(c.id) == Normal(Some(c.Snapshot()))
    {
      if CreateOp in faults {
        r := Raised(Unexpected(faults[CreateOp]));
        return;
      }
      Save(c.Snapshot());
      r := Normal(c.Snapshot());
    }

    /** update(category): stores the category over the row with its identifier and
        returns what was stored. */
    method Update(c: Category) returns (r: Raises<CategoryRow>)
      requires Valid() && c.Valid()
      modifies this
      ensures Valid() && faults == old(faults)
      ensures UpdateOp in faults ==>
                r == Raised(Unexpected(faults[UpdateOp])) && table == old(table) && order == old(order)
      ensures UpdateOp !in faults ==> r == Normal(c.Snapshot())
      ensures UpdateOp !in faults ==> table == old(table)[c.id := c.Snapshot()]
      ensures UpdateOp !in faults ==>
                order == if c.id in old(table) then old(order) else old(order) + [c.id]
      ensures UpdateOp !in faults && c.id in old(table) ==> order == old(order) && Count() == old(Count())
    {
      if UpdateOp in faults {
        r := Raised(Unexpected(faults[UpdateOp]));
        return;
      }
      Save(c.Snapshot());
      r := Normal(c.Snapshot());
    }

    /** deleteById(id): removes the row if there is one; an absent identifier is
        silently ignored. */
    method DeleteById(id: CategoryId) returns (raised: Option<Exception>)
      requires Valid()
      modifies this
      ensures Valid() && faults == old(faults)
      ensures DeleteByIdOp in faults ==>
                raised == Some(Unexpected(faults[DeleteByIdOp])) && table == old(table) && order == old(order)
      ensures DeleteByIdOp !in faults ==> raised == None && table == old(table) - {id} && id !in table
      ensures DeleteByIdOp !in faults ==> order == RemoveId(old(order), id)
      ensures DeleteByIdOp !in faults ==>
                Count() == if id in old(table) then old(Count()) - 1 else old(Count())
    {
      if DeleteByIdOp in faults {
        raised := Some(Unexpected(faults[DeleteByIdOp]));
        return;
      }
      ghost var before := |table|;
      if id in table {
        assert |(table - {id}).Keys| == |table.Keys - {id}| == |table.Keys| - 1;
      }
      table := table - {id};
      order := RemoveId(order, id);
      raised := None;
    }

    /** findById(id): the stored row, or nothing when the identifier is not stored. */
    function FindById(id: CategoryId): (r: Raises<Option<CategoryRow>>)
      reads this
      ensures FindByIdOp in faults ==> r == Raised(Unexpected(faults[FindByIdOp]))
      ensures FindByIdOp !in faults ==> r.Normal? && (r.value.Some? <==> id in table)
      ensures FindByIdOp !in faults && id in table ==> r.value.value == table[id]
    {
      if FindByIdOp in faults then Raised(Unexpected(faults[FindByIdOp]))
      else if id in table then Normal(Some(table[id]))
      else Normal(None)
    }

    /** findAll(query): the page the query selects from the stored rows. */
    function FindAll(q: SearchQuery): (r: Raises<Pagination<CategoryRow>>)
      reads this
      requires Valid()
      ensures FindAllOp in faults ==> r == Raised(Unexpected(faults[FindAllOp]))
      ensures FindAllOp !in faults ==> r == SearchRows(Rows(), q)
    {
      if FindAllOp in faults then Raised(Unexpected(faults[FindAllOp])) else SearchRows(Rows(), q)
    }
  }

  /** An empty table lists nothing: total 0, no items, page and size echoed. */
  lemma EmptyTableListsNothing(g: CategoryGateway, q: SearchQuery)
    requires g.Valid() && g.table == map[] && FindAllOp !in g.faults && WellFormed(q)
    ensures g.FindAll(q).value.total == 0 && g.FindAll(q).value.items == []
    ensures g.FindAll(q).value.currentPage == q.page && g.FindAll(q).value.perPage == q.perPage
  {
    assert g.Count() == 0;
  }

  /** Without a term every stored row is counted, however many pages there are. */
  lemma NoTermsCountsTable(g: CategoryGateway, q: SearchQuery)
    requires g.Valid() && FindAllOp !in g.faults && WellFormed(q) && !Filtering(q.terms)
    ensures g.FindAll(q).value.total == |g.table|
  {
    DistinctCardinality(g.order);
    assert g.table.Keys == set x | x in g.order;
  }
}
