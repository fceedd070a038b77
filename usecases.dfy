/** The application layer: the update command, get-by-id, listing, and update. */
module UseCases {
  import opened Wrappers
  import opened Validation
  import opened Categories
  import opened Search
  import opened Gateway

  /** UpdateCategoryCommand(id, name, description, isActive): the identifier stays a
      raw string and the name may be null; isActive is always present. */
  datatype UpdateCategoryCommand = UpdateCategoryCommand(
    id: string,
    name: Option<string>,
    description: Option<string>,
    isActive: bool)

  /** UpdateCategoryCommand.with: stores its arguments as given, checking nothing. */
  function With(anId: string, aName: Option<string>, aDescription: Option<string>,
                anIsActive: bool): (c: UpdateCategoryCommand)
    ensures c.id == anId && c.name == aName && c.description == aDescription
    ensures c.isActive == anIsActive
  {
    UpdateCategoryCommand(anId, aName, aDescription, anIsActive)
  }

  /** CategoryOutput: every field of a category. */
  datatype CategoryOutput = CategoryOutput(
    id: CategoryId,
    name: Option<string>,
    description: Option<string>,
    isActive: bool,
    createdAt: int,
    updatedAt: int,
    deletedAt: Option<int>)

  /** CategoryOutput.from(category): every field copied as it is. */
  function OutputFrom(r: CategoryRow): (o: CategoryOutput)
    ensures o.id == r.id && o.name == r.name && o.description == r.description
    ensures o.isActive == r.active && o.deletedAt == r.deletedAt
    ensures o.createdAt == r.createdAt && o.updatedAt == r.updatedAt
  {
    CategoryOutput(r.id, r.name, r.description, r.active, r.createdAt, r.updatedAt, r.deletedAt)
  }

  /** CategoryListOutput: what a listing shows of a category. */
  datatype CategoryListOutput = CategoryListOutput(
    id: CategoryId,
    name: Option<string>,
    description: Option<string>,
    isActive: bool,
    createdAt: int,
    deletedAt: Option<int>)

  /** CategoryListOutput.from(category): the listed fields copied as they are. */
  function ListOutputFrom(r: CategoryRow): (o: CategoryListOutput)
    ensures o.id == r.id && o.name == r.name && o.description == r.description
    ensures o.isActive == r.active && o.createdAt == r.createdAt && o.deletedAt == r.deletedAt
  {
    CategoryListOutput(r.id, r.name, r.description, r.active, r.createdAt, r.deletedAt)
  }

  /** UpdateCategoryOutput: the identifier of the updated category. */
  datatype UpdateCategoryOutput = UpdateCategoryOutput(id: CategoryId)

  /** The not-found message names the identifier between a fixed prefix and suffix. */
  function NotFoundMessage(id: CategoryId): (m: string)
    ensures |m| == |id.value| + 28
    ensures m[..14] == "Category with " && m[14..14 + |id.value|] == id.value
    ensures m[14 + |id.value|..] == " was not found"
  {
    "Category with " + id.value + " was not found"
  }

  /** The not-found failure: a DomainException with one error naming the identifier. */
  function NotFound(id: CategoryId): (e: Exception)
    ensures e.DomainException? && e.message == NotFoundMessage(id)
    ensures e.errors == [Error(NotFoundMessage(id))]
  {
    DomainWith(Error(NotFoundMessage(id)))
  }

  /** DefaultGetCategoryByIdUseCase.execute: a read of the store. A stored category
      comes back with every field as stored; an absent one raises the not-found
      DomainException; an exception of the store propagates unchanged. */
  function GetCategoryById(gateway: CategoryGateway, anId: string): (r: Raises<CategoryOutput>)
    reads gateway
    ensures FindByIdOp in gateway.faults ==> r == Raised(Unexpected(gateway.faults[FindByIdOp]))
    ensures FindByIdOp !in gateway.faults && CategoryId(anId) !in gateway.table ==>
              r.Raised? && r.exception.DomainException?
              && r.exception.message == "Category with " + anId + " was not found"
              && r.exception.errors == [Error("Category with " + anId + " was not found")]
    ensures FindByIdOp !in gateway.faults && CategoryId(anId) in gateway.table ==>
              var row := gateway.table[CategoryId(anId)];
              && r.Normal?
              && r.value.id == row.id
              && r.value.name == row.name && r.value.description == row.description
              && r.value.isActive == row.active
              && r.value.createdAt == row.createdAt && r.value.updatedAt == row.updatedAt
              && r.value.deletedAt == row.deletedAt
  {
    var id := CategoryId(anId);
    match gateway.FindById(id)
    case Raised(ex) => Raised(ex)
    case Normal(found) =>
      if found.Some? then Normal(OutputFrom(found.value)) else Raised(NotFound(id))
  }

  /** DefaultListCategoriesUseCase.execute: the store's page with each category
      turned into its list output; page, size and total are kept, and so are the
      number and the order of the items. The query reaches the store as it is. */
  function ListCategories(gateway: CategoryGateway, query: SearchQuery): (r: Raises<Pagination<CategoryListOutput>>)
    reads gateway
    requires gateway.Valid()
    ensures gateway.FindAll(query).Raised? ==> r == Raised(gateway.FindAll(query).exception)
    ensures gateway.FindAll(query).Normal? ==>
              var page := gateway.FindAll(query).value;
              && r.Normal?
              && r.value.currentPage == page.currentPage == query.page
              && r.value.perPage == page.perPage == query.perPage
              && r.value.total == page.total
              && |r.value.items| == |page.items|
              && forall i :: 0 <= i < |page.items| ==>
                   r.value.items[i] == ListOutputFrom(page.items[i])
  {
    match gateway.FindAll(query)
    case Raised(ex) => Raised(ex)
    case Normal(page) => Normal(MapItems(page, ListOutputFrom))
  }

  /** DefaultUpdateCategoryUseCase.execute, with the clock reading passed in.
      Looks the category up once by the command's identifier: an exception of the
      store propagates, an absent category raises not-found. Otherwise the aggregate
      is updated in place and validated with a Notification: errors are returned as
      Left and nothing is written. A valid category is written with update; an
      exception from that write is returned as Left with its one message, and
      success as Right with the identifier. */
  method UpdateCategory(gateway: CategoryGateway, command: UpdateCategoryCommand, now: int)
    returns (r: Raises<Either<seq<Error>, UpdateCategoryOutput>>)
    requires gateway.Valid()
    requires CategoryId(command.id) in gateway.table ==> gateway.table[CategoryId(command.id)].updatedAt < now
    modifies gateway
    ensures gateway.Valid() && gateway.faults == old(gateway.faults)
    ensures FindByIdOp in gateway.faults ==>
              r == Raised(Unexpected(gateway.faults[FindByIdOp])) && unchanged(gateway)
    ensures FindByIdOp !in gateway.faults && CategoryId(command.id) !in old(gateway.table) ==>
              r == Raised(NotFound(CategoryId(command.id))) && unchanged(gateway)
    ensures FindByIdOp !in gateway.faults && CategoryId(command.id) in old(gateway.table) ==>
              var id := CategoryId(command.id);
              var updated := Updated(old(gateway.table)[id], command.name, command.description, command.isActive, now);
              if NameErrors(command.name) != [] then
                r == Normal(Left(NameErrors(command.name))) && unchanged(gateway)
              else if UpdateOp in gateway.faults then
                r == Normal(Left([Error(gateway.faults[UpdateOp])]))
                && gateway.table == old(gateway.table) && gateway.order == old(gateway.order)
              else
                r == Normal(Right(UpdateCategoryOutput(id)))
                && gateway.table == old(gateway.table)[id := updated]
                && gateway.order == old(gateway.order)
  {
    var id := CategoryId(command.id);
    var found := gateway.FindById(id);
    if found.Raised? {
      return Raised(found.exception);
    }
    if found.value.None? {
      return Raised(NotFound(id));
    }
    var category := new Category.FromRow(found.value.value);
    var _ := category.Update(command.name, command.description, command.isActive, now);
    var notification := new ValidationHandler.Notification();
    var _ := category.Validate(notification);
    assert notification.errors == NameErrors(command.name);
    if notification.HasError() {
      return Normal(Left(notification.errors));
    }
    var written := gateway.Update(category);
    match written
    case Raised(ex) =>
      r := Normal(Left([Error(ex.message)]));
    case Normal(row) =>
      r := Normal(Right(UpdateCategoryOutput(row.id)));
  }

  /** A category stored through the gateway is read back by get-by-id with every
      field as stored; an active one has no deletion time. */
  method StoreThenGet(gateway: CategoryGateway, category: Category)
    returns (got: Raises<CategoryOutput>)
    requires gateway.Valid() && category.Valid()
    requires gateway.faults == map[]
    modifies gateway
    ensures got == Normal(OutputFrom(category.Snapshot()))
    ensures category.active ==> got.value.deletedAt == None
  {
    var _ := gateway.Create(category);
    got := GetCategoryById(gateway, category.id.value);
  }
}
