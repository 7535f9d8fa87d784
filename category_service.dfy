/** The category service: only an administrator may create a category, and
    only with a name; the listing is the repository's. */
module CategoryService {
  import opened Store
  import Text
  import CategoryRepository

  const ADMIN_ONLY := Failure(FORBIDDEN, "Forbidden: only admins can create categories")
  const NAME_REQUIRED := Failure(VALIDATION_ERROR, "Name is required")

  /** The checks of `createCategory`, in order; `None` when all pass. */
  function CreateCheck(name: Option<string>, user: Option<Claim>): Option<Failure> {
    if user.None? then Some(AUTH_REQUIRED)
    else if RoleOf(user.value) != ADMIN then Some(ADMIN_ONLY)
    else if !Filled(name) then Some(NAME_REQUIRED)
    else None
  }

  /** Authentication is checked first, then the role, then the name: a
      request failing several checks is refused for the first. Only an
      administrator with a non-empty name gets through; the role is compared
      after upper-casing. */
  lemma CreateCheckOrder(name: Option<string>, user: Option<Claim>)
    ensures user.None? ==> CreateCheck(name, user) == Some(AUTH_REQUIRED)
    ensures user.Some? && RoleOf(user.value) != ADMIN ==> CreateCheck(name, user) == Some(ADMIN_ONLY)
    ensures CreateCheck(name, user).None? <==> user.Some? && RoleOf(user.value) == ADMIN && Filled(name)
    ensures user.Some? && RoleOf(user.value) == ADMIN && !Filled(name) ==> CreateCheck(name, user) == Some(NAME_REQUIRED)
    ensures CreateCheck(name, user).Some? ==> CreateCheck(name, user).value in {AUTH_REQUIRED, ADMIN_ONLY, NAME_REQUIRED}
  {
  }

  /** "admin" and "Admin" pass the role check; a token without a role and an
      organizer do not. */
  lemma RoleExamples(id: int)
    ensures CreateCheck(Some("Rock"), Some(Claim(id, "admin"))).None?
    ensures CreateCheck(Some("Rock"), Some(Claim(id, "Admin"))).None?
    ensures CreateCheck(Some("Rock"), Some(Claim(id, ""))) == Some(ADMIN_ONLY)
    ensures CreateCheck(Some("Rock"), Some(Claim(id, "ORGANIZER"))) == Some(ADMIN_ONLY)
  {
    assert Text.Upper("admin") == ADMIN;
    assert Text.Upper("Admin") == ADMIN;
    assert Text.Upper("ORGANIZER") == "ORGANIZER";
  }

  class CategoryService {
    const store: Database

    constructor (store: Database)
      ensures this.store == store
    {
      this.store := store;
    }

    /** `createCategory({ name }, currentUser)`: a refused request stores
        nothing; an accepted one hands exactly the name to the repository and
        returns its result. */
    method CreateCategory(name: Option<string>, currentUser: Option<Claim>, now: int) returns (r: Result<Category>)
      requires store.Valid()
      modifies store
      ensures store.Valid()
      ensures CreateCheck(name, currentUser).Some? ==>
                r == Err(CreateCheck(name, currentUser).value) && unchanged(store)
      ensures CreateCheck(name, currentUser).None? ==>
                && (r, store.categories)
                   == CategoryRepository.CategoryInsert(old(store.categories), old(store.nextCategoryId), name.value, now)
                && store.nextCategoryId == old(store.nextCategoryId) + 1
      ensures store.events == old(store.events) && store.nextEventId == old(store.nextEventId)
      ensures store.tickets == old(store.tickets) && store.nextTicketId == old(store.nextTicketId)
      ensures store.users == old(store.users) && store.nextUserId == old(store.nextUserId)
    {
      var failure := CreateCheck(name, currentUser);
      if failure.Some? {
        return Err(failure.value);
      }
      r := CategoryRepository.CreateCategory(store, name.value, now);
    }

    /** `listCategories()`: the repository's list unchanged. */
    method ListCategories() returns (r: seq<Category>)
      ensures r == CategoryRepository.ListCategories(store.categories)
    {
      r := CategoryRepository.ListCategories(store.categories);
    }
  }
}
