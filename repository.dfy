/**
 * The store shape of `IRepository<TEntity>`: point lookup by predicate
 * (`FirstOrDefaultAsync`, `GetByIdAsync`), the query operators the services
 * compose over `GetAll()`, and the unit of work whose three collections the
 * services add to, update and delete from.
 */
module Repository {
  import opened Wrappers
  import opened Entities

  /** `FirstOrDefaultAsync(p)`: the position of the first record satisfying `p`, if any. */
  function FirstIndex<T>(s: seq<T>, p: T -> bool): (r: Option<nat>)
    ensures r.Some? ==> r.value < |s| && p(s[r.value])
    ensures r.Some? ==> forall j :: 0 <= j < r.value ==> !p(s[j])
    ensures r.None? <==> forall j :: 0 <= j < |s| ==> !p(s[j])
  {
    if |s| == 0 then None
    else if p(s[0]) then Some(0)
    else match FirstIndex(s[1..], p)
      case None => None
      case Some(k) => Some(k + 1)
  }

  /** `GetByIdAsync(id)` on the categories, used by both the product and the category service. */
  function FindCategory(categories: seq<Category>, id: Guid): Option<nat> {
    FirstIndex(categories, (c: Category) => c.id == id)
  }

  /** `Where(p)`: the records satisfying `p`, in store order. */
  function Where<T>(s: seq<T>, p: T -> bool): (r: seq<T>)
    ensures |r| <= |s|
    ensures forall i :: 0 <= i < |r| ==> r[i] in s && p(r[i])
    ensures forall j :: 0 <= j < |s| && p(s[j]) ==> s[j] in r
  {
    if |s| == 0 then []
    else if p(s[0]) then [s[0]] + Where(s[1..], p)
    else Where(s[1..], p)
  }

  /** `Where` distributes over concatenation, so it keeps the store order. */
  lemma {:induction false} WhereAppend<T>(s: seq<T>, t: seq<T>, p: T -> bool)
    ensures Where(s + t, p) == Where(s, p) + Where(t, p)
    decreases |s|
  {
    if |s| == 0 {
      assert s + t == t;
    } else {
      assert (s + t)[1..] == s[1..] + t;
      WhereAppend(s[1..], t, p);
    }
  }

  /** LINQ `Skip(n)`: a non-positive count skips nothing. */
  function Skip<T>(s: seq<T>, n: int): (r: seq<T>)
    ensures n <= 0 ==> r == s
    ensures 0 <= n <= |s| ==> r == s[n..]
    ensures n >= |s| ==> r == []
  {
    if n <= 0 then s else if n >= |s| then [] else s[n..]
  }

  /** LINQ `Take(n)`: a non-positive count takes nothing. */
  function Take<T>(s: seq<T>, n: int): (r: seq<T>)
    ensures n <= 0 ==> r == []
    ensures 0 <= n <= |s| ==> r == s[..n]
    ensures n >= |s| ==> r == s
  {
    if n <= 0 then [] else if n >= |s| then s else s[..n]
  }

  /** `Delete(entity)` followed by a save: the record at `i` is gone, the rest keep their order. */
  function RemoveAt<T>(s: seq<T>, i: nat): (r: seq<T>)
    requires i < |s|
    ensures |r| == |s| - 1
    ensures forall j :: 0 <= j < i ==> r[j] == s[j]
    ensures forall j :: i <= j < |r| ==> r[j] == s[j + 1]
  {
    s[..i] + s[i + 1..]
  }

  /** `IUnitOfWork`: the three repositories, each a sequence the services reassign on save. */
  class UnitOfWork {
    var users: seq<User>
    var products: seq<Product>
    var categories: seq<Category>

    constructor (users: seq<User>, products: seq<Product>, categories: seq<Category>)
      ensures this.users == users && this.products == products && this.categories == categories
    {
      this.users := users;
      this.products := products;
      this.categories := categories;
    }
  }
}
