/**
 * The product service: create with image-path normalisation, filtered and
 * paginated listing, lookup by id, partial update, delete, and keyword search.
 * Queries are functions over the stored sequences; the three operations that
 * change the store are methods of ProductService over the shared unit of work.
 */
module Products {
  import opened Wrappers
  import opened Entities
  import opened Text
  import Repository

  /** A C# `int`. */
  type Int32 = x: int | -0x8000_0000 <= x < 0x8000_0000

  /** Unchecked C# `int` arithmetic: keep the low 32 bits, two's complement. */
  function Wrap32(x: int): (r: Int32)
    ensures -0x8000_0000 <= x < 0x8000_0000 ==> r == x
    ensures (r - x) % 0x1_0000_0000 == 0
  {
    var m := x % 0x1_0000_0000;
    if m >= 0x8000_0000 then m - 0x1_0000_0000 else m
  }

  function Min(a: int, b: int): int {
    if a <= b then a else b
  }

  datatype ProductCreateDto = ProductCreateDto(
    name: string, description: string, price: int, stock: int, categoryId: Guid)

  /** Every field nullable: only the present ones overwrite. */
  datatype ProductUpdateDto = ProductUpdateDto(
    name: Option<string>, description: Option<string>, price: Option<int>,
    stock: Option<int>, categoryId: Option<Guid>)

  datatype ProductDto = ProductDto(
    id: Guid, name: string, description: string, price: int, stock: int,
    categoryId: Guid, categoryName: string, imagePath: string)

  /** The stored image path: empty when the given path is null or whitespace, the path itself otherwise. */
  function NormalizeImagePath(imagePath: Option<string>): (r: string)
    ensures IsNullOrWhiteSpace(imagePath) ==> r == ""
    ensures !IsNullOrWhiteSpace(imagePath) ==> imagePath == Some(r)
  {
    if IsNullOrWhiteSpace(imagePath) then "" else imagePath.value
  }

  /** The record Create inserts; `id` and `now` stand for `Guid.NewGuid()` and `DateTime.UtcNow`. */
  function NewProduct(dto: ProductCreateDto, imagePath: Option<string>, id: Guid, now: Time): Product {
    Product(id, dto.name, dto.description, dto.price, dto.stock, dto.categoryId,
            NormalizeImagePath(imagePath), now)
  }

  function FindProduct(products: seq<Product>, id: Guid): Option<nat> {
    Repository.FirstIndex(products, (p: Product) => p.id == id)
  }

  /** `p.Category?.Name ?? string.Empty`: the name of the linked category, or empty when it is absent. */
  function CategoryName(categories: seq<Category>, categoryId: Guid): (r: string)
    ensures (forall j :: 0 <= j < |categories| ==> categories[j].id != categoryId) ==> r == ""
    ensures (exists j :: 0 <= j < |categories| && categories[j].id == categoryId) ==>
              exists j :: 0 <= j < |categories| && categories[j].id == categoryId && r == categories[j].name
  {
    match Repository.FindCategory(categories, categoryId)
    case None => ""
    case Some(j) => categories[j].name
  }

  function ToDto(p: Product, categories: seq<Category>): ProductDto {
    ProductDto(p.id, p.name, p.description, p.price, p.stock, p.categoryId,
               CategoryName(categories, p.categoryId), p.imagePath)
  }

  /** The `Select` projection of a query result. */
  function ToDtos(ps: seq<Product>, categories: seq<Category>): (r: seq<ProductDto>)
    ensures |r| == |ps| && forall i :: 0 <= i < |ps| ==> r[i] == ToDto(ps[i], categories)
  {
    seq(|ps|, i requires 0 <= i < |ps| => ToDto(ps[i], categories))
  }

  /** The optional filters of GetAll, each applied only when supplied. */
  predicate MatchesFilter(p: Product, categoryId: Option<Guid>, minPrice: Option<int>, maxPrice: Option<int>) {
    && (categoryId.None? || p.categoryId == categoryId.value)
    && (minPrice.None? || p.price >= minPrice.value)
    && (maxPrice.None? || p.price <= maxPrice.value)
  }

  function Filter(products: seq<Product>, categoryId: Option<Guid>, minPrice: Option<int>,
                  maxPrice: Option<int>): seq<Product>
  {
    Repository.Where(products, (p: Product) => MatchesFilter(p, categoryId, minPrice, maxPrice))
  }

  /** `(page - 1) * limit` in C# `int` arithmetic: the product modulo 2^32. */
  function PageOffset(page: Int32, limit: Int32): (r: Int32)
    ensures (r - (page - 1) * limit) % 0x1_0000_0000 == 0
  {
    var w := Wrap32(page - 1);
    var r := Wrap32(w * limit);
    WrapProductCongruent(page - 1, w, limit, r);
    r
  }

  /** If w wraps x and r wraps w * limit, then r and x * limit agree modulo 2^32. */
  lemma WrapProductCongruent(x: int, w: int, limit: int, r: int)
    requires (w - x) % 0x1_0000_0000 == 0 && (r - w * limit) % 0x1_0000_0000 == 0
    ensures (r - x * limit) % 0x1_0000_0000 == 0
  {
    var q1 := (w - x) / 0x1_0000_0000;
    var q2 := (r - w * limit) / 0x1_0000_0000;
    assert w == x + q1 * 0x1_0000_0000;
    assert r == w * limit + q2 * 0x1_0000_0000;
    assert w * limit == x * limit + (q1 * limit) * 0x1_0000_0000 by {
      assert w * limit == (x + q1 * 0x1_0000_0000) * limit;
    }
    assert r - x * limit == (q1 * limit + q2) * 0x1_0000_0000;
  }

  /** `Skip(offset).Take(limit)`. */
  function Paginate<T>(s: seq<T>, offset: int, limit: int): seq<T> {
    Repository.Take(Repository.Skip(s, offset), limit)
  }

  /** GetAll: the filtered products, one page of them, projected. A page never holds more than
      `limit` items, whatever the page number, and never more items than are stored. */
  function GetAll(products: seq<Product>, categories: seq<Category>, categoryId: Option<Guid>,
                  minPrice: Option<int>, maxPrice: Option<int>, page: Int32, limit: Int32): (r: seq<ProductDto>)
    ensures |r| <= |products|
    ensures 0 <= limit ==> |r| <= limit
  {
    ToDtos(Paginate(Filter(products, categoryId, minPrice, maxPrice), PageOffset(page, limit), limit), categories)
  }

  /** GetById: null exactly when no stored product has the id, otherwise that product's projection. */
  function GetById(products: seq<Product>, categories: seq<Category>, id: Guid): (r: Option<ProductDto>)
    ensures r.None? <==> forall j :: 0 <= j < |products| ==> products[j].id != id
    ensures r.Some? ==> exists j :: 0 <= j < |products| && products[j].id == id
                                    && r.value == ToDto(products[j], categories)
  {
    match FindProduct(products, id)
    case None => None
    case Some(j) => Some(ToDto(products[j], categories))
  }

  /** The search predicate, with the keyword already lower-cased. */
  predicate MatchesKeyword(p: Product, keywordLower: string) {
    Contains(ToLower(p.name), keywordLower) || Contains(ToLower(p.description), keywordLower)
  }

  /** Search: the projections of the products matching the lower-cased keyword (see SearchExact). */
  function Search(products: seq<Product>, categories: seq<Category>, keyword: string): (r: seq<ProductDto>)
    ensures |r| <= |products|
  {
    var keywordLower := ToLower(keyword);
    ToDtos(Repository.Where(products, (p: Product) => MatchesKeyword(p, keywordLower)), categories)
  }

  /** The field-by-field overwrite of Update: a present DTO field (or image path) replaces the stored one. */
  function ApplyUpdate(p: Product, dto: ProductUpdateDto, imagePath: Option<string>): (r: Product)
    ensures r.id == p.id && r.createdAt == p.createdAt
  {
    p.(name := dto.name.GetOr(p.name),
       description := dto.description.GetOr(p.description),
       price := dto.price.GetOr(p.price),
       stock := dto.stock.GetOr(p.stock),
       categoryId := dto.categoryId.GetOr(p.categoryId),
       imagePath := imagePath.GetOr(p.imagePath))
  }

  /** Update touches exactly the supplied fields: each present value is stored, each absent one kept,
      and the id and creation time never change. */
  lemma ApplyUpdateFields(p: Product, dto: ProductUpdateDto, imagePath: Option<string>)
    ensures var q := ApplyUpdate(p, dto, imagePath);
      && q.id == p.id && q.createdAt == p.createdAt
      && q.name == (if dto.name.Some? then dto.name.value else p.name)
      && q.description == (if dto.description.Some? then dto.description.value else p.description)
      && q.price == (if dto.price.Some? then dto.price.value else p.price)
      && q.stock == (if dto.stock.Some? then dto.stock.value else p.stock)
      && q.categoryId == (if dto.categoryId.Some? then dto.categoryId.value else p.categoryId)
      && q.imagePath == (if imagePath.Some? then imagePath.value else p.imagePath)
  {
  }

  /** Applying the same update twice is the same as applying it once, and an update with every
      field absent changes nothing. */
  lemma ApplyUpdateIdempotent(p: Product, dto: ProductUpdateDto, imagePath: Option<string>)
    ensures ApplyUpdate(ApplyUpdate(p, dto, imagePath), dto, imagePath) == ApplyUpdate(p, dto, imagePath)
    ensures ApplyUpdate(p, ProductUpdateDto(None, None, None, None, None), None) == p
  {
  }

  /** The paginated result is a contiguous slice of its input. */
  lemma PaginateIsSlice<T>(s: seq<T>, off: int, limit: int)
    ensures exists a, b :: 0 <= a <= b <= |s| && Paginate(s, off, limit) == s[a..b]
  {
    var sk := Repository.Skip(s, off);
    var a := if off <= 0 then 0 else Min(off, |s|);
    assert sk == s[a..];
    var b := if limit <= 0 then a else Min(a + limit, |s|);
    assert Paginate(s, off, limit) == s[a..b];
  }

  /** Every product GetAll returns is a stored product that passes each supplied filter. */
  lemma {:induction false} GetAllMatchesFilters(products: seq<Product>, categories: seq<Category>,
                                                categoryId: Option<Guid>, minPrice: Option<int>,
                                                maxPrice: Option<int>, page: Int32, limit: Int32)
    ensures var r := GetAll(products, categories, categoryId, minPrice, maxPrice, page, limit);
      forall i :: 0 <= i < |r| ==>
        && (categoryId.Some? ==> r[i].categoryId == categoryId.value)
        && (minPrice.Some? ==> r[i].price >= minPrice.value)
        && (maxPrice.Some? ==> r[i].price <= maxPrice.value)
        && (exists j :: 0 <= j < |products| && r[i] == ToDto(products[j], categories))
  {
    var f := Filter(products, categoryId, minPrice, maxPrice);
    var pg := Paginate(f, PageOffset(page, limit), limit);
    PaginateIsSlice(f, PageOffset(page, limit), limit);
    var a, b :| 0 <= a <= b <= |f| && pg == f[a..b];
    forall i | 0 <= i < |pg|
      ensures MatchesFilter(pg[i], categoryId, minPrice, maxPrice) && pg[i] in products
    {
      assert pg[i] == f[a + i];
    }
  }

  /** Without overflow, the offset is the mathematical (page - 1) * limit. */
  lemma PageOffsetExact(page: Int32, limit: Int32)
    requires 1 <= page && 0 <= limit && (page - 1) * limit < 0x8000_0000
    ensures PageOffset(page, limit) == (page - 1) * limit && 0 <= (page - 1) * limit
  {
    var x := page - 1;
    assert Wrap32(page - 1) == x;
    assert 0 <= x * limit by {
      assert 0 <= x && 0 <= limit;
    }
  }

  /** With a non-negative offset, pagination is the slice [offset, offset + limit) clipped to the input. */
  lemma PaginateAt<T>(s: seq<T>, off: int, limit: int)
    requires 0 <= limit && 0 <= off
    ensures Paginate(s, off, limit) == s[Min(off, |s|)..Min(off + limit, |s|)]
  {
    assert Repository.Skip(s, off) == s[Min(off, |s|)..];
  }

  /** For page >= 1 and limit >= 0 with no overflow in (page - 1) * limit, GetAll returns the slice
      of the filtered products that starts at (page - 1) * limit. (The bound of `limit` items holds
      for every page; GetAll itself states it.) */
  lemma GetAllPage(products: seq<Product>, categories: seq<Category>, categoryId: Option<Guid>,
                   minPrice: Option<int>, maxPrice: Option<int>, page: Int32, limit: Int32)
    requires 1 <= page && 0 <= limit && 0 <= (page - 1) * limit < 0x8000_0000
    ensures var f := Filter(products, categoryId, minPrice, maxPrice);
      var off := (page - 1) * limit;
      var r := GetAll(products, categories, categoryId, minPrice, maxPrice, page, limit);
      && |r| <= limit
      && r == ToDtos(f[Min(off, |f|)..Min(off + limit, |f|)], categories)
  {
    var off := (page - 1) * limit;
    PageOffsetExact(page, limit);
    var f := Filter(products, categoryId, minPrice, maxPrice);
    PaginateAt(f, off, limit);
    var pg := f[Min(off, |f|)..Min(off + limit, |f|)];
    assert GetAll(products, categories, categoryId, minPrice, maxPrice, page, limit) == ToDtos(pg, categories);
  }

  /** As written, a page far past the end wraps: page 2147483647 with limit 10 gives offset -20.
      Under LINQ-to-objects `Skip` that offset skips nothing and the first page comes back; the
      PostgreSQL provider the application is configured with rejects the negative OFFSET instead. */
  lemma LastPageWrapsToFirst<T>(s: seq<T>)
    ensures PageOffset(0x7FFF_FFFF, 10) == -20
    ensures Paginate(s, PageOffset(0x7FFF_FFFF, 10), 10) == Repository.Take(s, 10)
  {
  }

  /** Search returns exactly the projections of the stored products whose lower-cased name or
      description contains the lower-cased keyword; their order is that of `Repository.Where`,
      which `Repository.WhereAppend` shows to be the store order. */
  lemma {:induction false} SearchExact(products: seq<Product>, categories: seq<Category>, keyword: string)
    ensures var r := Search(products, categories, keyword);
      && |r| <= |products|
      && (forall i :: 0 <= i < |r| ==>
            exists j :: 0 <= j < |products| && MatchesKeyword(products[j], ToLower(keyword))
                        && r[i] == ToDto(products[j], categories))
      && (forall j :: 0 <= j < |products| ==>
            (ToDto(products[j], categories) in r <==> MatchesKeyword(products[j], ToLower(keyword))))
  {
    var kw := ToLower(keyword);
    var m := Repository.Where(products, (p: Product) => MatchesKeyword(p, kw));
    var r := Search(products, categories, keyword);
    forall i | 0 <= i < |r|
      ensures exists j :: 0 <= j < |products| && MatchesKeyword(products[j], kw)
                          && r[i] == ToDto(products[j], categories)
    {
      assert m[i] in products;
      var j :| 0 <= j < |products| && products[j] == m[i];
    }
    forall j | 0 <= j < |products|
      ensures ToDto(products[j], categories) in r <==> MatchesKeyword(products[j], kw)
    {
      if MatchesKeyword(products[j], kw) {
        assert products[j] in m;
        var i :| 0 <= i < |m| && m[i] == products[j];
        assert r[i] == ToDto(products[j], categories);
      }
      if ToDto(products[j], categories) in r {
        var i :| 0 <= i < |r| && r[i] == ToDto(products[j], categories);
        assert m[i].name == products[j].name && m[i].description == products[j].description;
      }
    }
  }

  /** The product service over the shared unit of work. */
  class ProductService {
    const uow: Repository.UnitOfWork

    constructor (uow: Repository.UnitOfWork)
      ensures this.uow == uow
    {
      this.uow := uow;
    }

    /** Add one product copied from the DTO, with the normalised image path, and return its projection. */
    method Create(dto: ProductCreateDto, imagePath: Option<string>, newId: Guid, now: Time)
      returns (r: ProductDto)
      modifies uow
      ensures uow.products == old(uow.products) + [NewProduct(dto, imagePath, newId, now)]
      ensures r == ToDto(NewProduct(dto, imagePath, newId, now), uow.categories)
      ensures uow.users == old(uow.users) && uow.categories == old(uow.categories)
    {
      var product := NewProduct(dto, imagePath, newId, now);
      uow.products := uow.products + [product];
      r := ToDto(product, uow.categories);
    }

    /** Overwrite the supplied fields of the product with `id`; "Product not found" when there is none. */
    method Update(id: Guid, dto: ProductUpdateDto, imagePath: Option<string>) returns (r: Outcome<CatalogueError>)
      modifies uow
      ensures FindProduct(old(uow.products), id).None? ==>
                r == Fail(ProductNotFound) && uow.products == old(uow.products)
      ensures FindProduct(old(uow.products), id).Some? ==>
                var i := FindProduct(old(uow.products), id).value;
                r == Pass && uow.products == old(uow.products)[i := ApplyUpdate(old(uow.products)[i], dto, imagePath)]
      ensures uow.users == old(uow.users) && uow.categories == old(uow.categories)
    {
      var found := FindProduct(uow.products, id);
      if found.None? {
        return Fail(ProductNotFound);
      }
      var i := found.value;
      var product := uow.products[i];
      if dto.name.Some? { product := product.(name := dto.name.value); }
      if dto.description.Some? { product := product.(description := dto.description.value); }
      if dto.price.Some? { product := product.(price := dto.price.value); }
      if dto.stock.Some? { product := product.(stock := dto.stock.value); }
      if dto.categoryId.Some? { product := product.(categoryId := dto.categoryId.value); }
      if imagePath.Some? { product := product.(imagePath := imagePath.value); }
      uow.products := uow.products[i := product];
      r := Pass;
    }

    /** Remove the product with `id`; "Product not found" when there is none. */
    method Delete(id: Guid) returns (r: Outcome<CatalogueError>)
      modifies uow
      ensures FindProduct(old(uow.products), id).None? ==>
                r == Fail(ProductNotFound) && uow.products == old(uow.products)
      ensures FindProduct(old(uow.products), id).Some? ==>
                r == Pass && uow.products == Repository.RemoveAt(old(uow.products), FindProduct(old(uow.products), id).value)
      ensures uow.users == old(uow.users) && uow.categories == old(uow.categories)
    {
      var found := FindProduct(uow.products, id);
      if found.None? {
        return Fail(ProductNotFound);
      }
      uow.products := uow.products[..found.value] + uow.products[found.value + 1..];
      r := Pass;
    }
  }
}
