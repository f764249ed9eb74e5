/** The records the unit of work stores: users, products and categories. */
module Entities {
  import opened Wrappers

  /** A `Guid`, as an opaque identifier. */
  type Guid = nat

  /** A `DateTime` in UTC, counted in ticks of 100 ns; `default(DateTime)` is tick 0. */
  type Time = int

  const DefaultTime: Time := 0
  const TicksPerMinute: int := 600_000_000
  const TicksPerDay: int := 864_000_000_000

  /** The credential record: identity, password hash and the current refresh token with its expiry. */
  datatype User = User(
    id: Guid,
    username: string,
    email: string,
    passwordHash: string,
    refreshToken: Option<string>,
    refreshTokenExpiry: Time)

  /** A product; `Price` is a decimal in the source and an exact integer here. */
  datatype Product = Product(
    id: Guid,
    name: string,
    description: string,
    price: int,
    stock: int,
    categoryId: Guid,
    imagePath: string,
    createdAt: Time)

  /** A category; its `Products` navigation is the set of products whose `categoryId` is its id. */
  datatype Category = Category(id: Guid, name: string, description: string)

  /** The exceptions the catalogue services throw, by message. */
  datatype CatalogueError = ProductNotFound | CategoryNotFound | CategoryHasLinkedProducts {
    function Message(): string {
      match this
      case ProductNotFound => "Product not found"
      case CategoryNotFound => "Category not found"
      case CategoryHasLinkedProducts => "Category has linked products"
    }
  }
}
