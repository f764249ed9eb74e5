/**
 * The category service: create, listing and lookup with the number of linked
 * products, partial update, and a delete guarded against categories that
 * still have products.
 */
module Categories {
  import opened Wrappers
  import opened Entities
  import Repository

  datatype CategoryCreateDto = CategoryCreateDto(name: string, description: string)
  datatype CategoryUpdateDto = CategoryUpdateDto(name: Option<string>, description: Option<string>)
  datatype CategoryDto = CategoryDto(id: Guid, name: string, description: string, productCount: nat)

  /** The category's `Products` navigation: the products whose `categoryId` is `id`. */
  function LinkedProducts(products: seq<Product>, id: Guid): seq<Product> {
    Repository.Where(products, (p: Product) => p.categoryId == id)
  }

  /** `Products.Any()`. */
  predicate HasLinkedProducts(products: seq<Product>, id: Guid) {
    exists j :: 0 <= j < |products| && products[j].categoryId == id
  }

  /** `Products.Count`, counted one stored product at a time. */
  function CountLinked(products: seq<Product>, id: Guid): (n: nat)
    ensures n <= |products|
    ensures n == 0 <==> !HasLinkedProducts(products, id)
  {
    if |products| == 0 then 0
    else
      assert forall j :: 1 <= j < |products| ==> products[j] == products[1..][j - 1];
      (if products[0].categoryId == id then 1 else 0) + CountLinked(products[1..], id)
  }

  /** The count is the size of the category's `Products` navigation. */
  lemma {:induction false} CountLinkedIsNavigationSize(products: seq<Product>, id: Guid)
    ensures CountLinked(products, id) == |LinkedProducts(products, id)|
    decreases |products|
  {
    if |products| > 0 {
      CountLinkedIsNavigationSize(products[1..], id);
    }
  }

  function ToDto(c: Category, products: seq<Product>): CategoryDto {
    CategoryDto(c.id, c.name, c.description, CountLinked(products, c.id))
  }

  /** GetAll: one projection per stored category, in store order. */
  function GetAll(categories: seq<Category>, products: seq<Product>): (r: seq<CategoryDto>)
    ensures |r| == |categories|
    ensures forall i :: 0 <= i < |r| ==> r[i] == ToDto(categories[i], products)
  {
    seq(|categories|, i requires 0 <= i < |categories| => ToDto(categories[i], products))
  }

  /** GetById: null exactly when no stored category has the id, otherwise its projection. */
  function GetById(categories: seq<Category>, products: seq<Product>, id: Guid): (r: Option<CategoryDto>)
    ensures r.None? <==> forall j :: 0 <= j < |categories| ==> categories[j].id != id
    ensures r.Some? ==> exists j :: 0 <= j < |categories| && categories[j].id == id
                                    && r.value == ToDto(categories[j], products)
  {
    match Repository.FindCategory(categories, id)
    case None => None
    case Some(j) => Some(ToDto(categories[j], products))
  }

  /** The reported ProductCount is the number of stored products linked to the category, and it is
      zero exactly when the category has no linked products. */
  lemma ProductCountIsLinkedCount(categories: seq<Category>, products: seq<Product>, id: Guid)
    ensures var r := GetById(categories, products, id);
      r.Some? ==> && r.value.productCount == |LinkedProducts(products, id)|
                  && (r.value.productCount == 0 <==> !HasLinkedProducts(products, id))
    ensures forall i :: 0 <= i < |categories| ==>
      GetAll(categories, products)[i].productCount == |LinkedProducts(products, categories[i].id)|
  {
    CountLinkedIsNavigationSize(products, id);
    forall i | 0 <= i < |categories|
      ensures GetAll(categories, products)[i].productCount == |LinkedProducts(products, categories[i].id)|
    {
      CountLinkedIsNavigationSize(products, categories[i].id);
    }
  }

  /** The field-by-field overwrite of Update. */
  function ApplyUpdate(c: Category, dto: CategoryUpdateDto): (r: Category)
    ensures r.id == c.id
    ensures r.name == (if dto.name.Some? then dto.name.value else c.name)
    ensures r.description == (if dto.description.Some? then dto.description.value else c.description)
  {
    c.(name := dto.name.GetOr(c.name), description := dto.description.GetOr(c.description))
  }

  /** The zero ProductCount Create returns agrees with a later GetById whenever no stored product
      already points at the new id. */
  lemma CreatedCountAgrees(categories: seq<Category>, products: seq<Product>, dto: CategoryCreateDto, newId: Guid)
    requires forall j :: 0 <= j < |products| ==> products[j].categoryId != newId
    requires forall j :: 0 <= j < |categories| ==> categories[j].id != newId
    ensures GetById(categories + [Category(newId, dto.name, dto.description)], products, newId)
              == Some(CategoryDto(newId, dto.name, dto.description, 0))
  {
    var cs := categories + [Category(newId, dto.name, dto.description)];
    assert cs[|categories|].id == newId;
  }

  /** The category service over the shared unit of work. */
  class CategoryService {
    const uow: Repository.UnitOfWork

    constructor (uow: Repository.UnitOfWork)
      ensures this.uow == uow
    {
      this.uow := uow;
    }

    /** Add one category with the DTO's name and description; report it with ProductCount 0. */
    method Create(dto: CategoryCreateDto, newId: Guid) returns (r: CategoryDto)
      modifies uow
      ensures uow.categories == old(uow.categories) + [Category(newId, dto.name, dto.description)]
      ensures r == CategoryDto(newId, dto.name, dto.description, 0)
      ensures uow.users == old(uow.users) && uow.products == old(uow.products)
    {
      var category := Category(newId, dto.name, dto.description);
      uow.categories := uow.categories + [category];
      r := CategoryDto(category.id, category.name, category.description, 0);
    }

    /** Overwrite the supplied fields of the category with `id`; "Category not found" when there is none. */
    method Update(id: Guid, dto: CategoryUpdateDto) returns (r: Outcome<CatalogueError>)
      modifies uow
      ensures Repository.FindCategory(old(uow.categories), id).None? ==>
                r == Fail(CategoryNotFound) && uow.categories == old(uow.categories)
      ensures Repository.FindCategory(old(uow.categories), id).Some? ==>
                var i := Repository.FindCategory(old(uow.categories), id).value;
                && r == Pass
                && uow.categories == old(uow.categories)[i := ApplyUpdate(old(uow.categories)[i], dto)]
                && uow.categories[i].id == old(uow.categories)[i].id
                && uow.categories[i].name == (if dto.name.Some? then dto.name.value else old(uow.categories)[i].name)
                && uow.categories[i].description ==
                     (if dto.description.Some? then dto.description.value else old(uow.categories)[i].description)
      ensures uow.users == old(uow.users) && uow.products == old(uow.products)
    {
      var found := Repository.FindCategory(uow.categories, id);
      if found.None? {
        return Fail(CategoryNotFound);
      }
      var i := found.value;
      var category := uow.categories[i];
      if dto.name.Some? { category := category.(name := dto.name.value); }
      if dto.description.Some? { category := category.(description := dto.description.value); }
      uow.categories := uow.categories[i := category];
      r := Pass;
    }

    /** Remove the category with `id`: "Category not found" when there is none, "Category has linked
        products" (and the category stays) when some product still points at it. */
    method Delete(id: Guid) returns (r: Outcome<CatalogueError>)
      modifies uow
      ensures Repository.FindCategory(old(uow.categories), id).None? ==>
                r == Fail(CategoryNotFound) && uow.categories == old(uow.categories)
      ensures Repository.FindCategory(old(uow.categories), id).Some? && HasLinkedProducts(uow.products, id) ==>
                r == Fail(CategoryHasLinkedProducts) && uow.categories == old(uow.categories)
      ensures Repository.FindCategory(old(uow.categories), id).Some? && !HasLinkedProducts(uow.products, id) ==>
                r == Pass
                && uow.categories == Repository.RemoveAt(old(uow.categories), Repository.FindCategory(old(uow.categories), id).value)
      ensures uow.users == old(uow.users) && uow.products == old(uow.products)
    {
      var found := Repository.FindCategory(uow.categories, id);
      if found.None? {
        return Fail(CategoryNotFound);
      }
      if HasLinkedProducts(uow.products, id) {
        return Fail(CategoryHasLinkedProducts);
      }
      uow.categories := uow.categories[..found.value] + uow.categories[found.value + 1..];
      r := Pass;
    }
  }
}
