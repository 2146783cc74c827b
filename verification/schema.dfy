/** The relational schema of backend/recipes/models.py and
    backend/users/models.py as an immutable in-memory store: tables are maps
    keyed by primary key, join tables holding only a pair are sets of pairs
    (so the (user, recipe) and (user, author) uniqueness constraints hold by
    construction), and the recipe-ingredient join rows of each recipe are a
    list. The database's check and uniqueness constraints and its foreign
    keys are the predicates below; ON DELETE CASCADE is DeleteRecipe and
    DeleteUser. */
module Schema {
  import opened Common

  datatype Tag = Tag(name: string, slug: string)

  /** An ingredient is identified to users by its name and unit. */
  datatype Ingredient = Ingredient(name: string, unit: string)

  /** A recipe row; its tags are the many-to-many tag set, and shortCode is
      the blank-by-default code that Recipe.save fills in. */
  datatype Recipe = Recipe(
    author: UserId,
    name: string,
    text: string,
    cookingTime: int,
    tags: set<TagId>,
    shortCode: string)

  /** A RecipeIngredient join row (the recipe is the key it is stored under);
      amount is a PositiveSmallIntegerField. */
  datatype RecipeIngredient = RecipeIngredient(ingredient: IngredientId, amount: nat)

  /** A user; password is the stored credential, avatar is nullable. */
  datatype User = User(email: string, username: string, firstName: string, lastName: string, avatar: Option<string>, password: string)

  datatype Db = Db(
    users: map<UserId, User>,
    tags: map<TagId, Tag>,
    ingredients: map<IngredientId, Ingredient>,
    recipes: map<RecipeId, Recipe>,
    rows: map<RecipeId, seq<RecipeIngredient>>,
    favorites: set<(UserId, RecipeId)>,
    carts: set<(UserId, RecipeId)>,
    follows: set<(UserId, UserId)>)

  /** MIN_COOKING_TIME, MAX_COOKING_TIME, MIN_AMOUNT and MAX_AMOUNT, whose
      values live in a constants module outside this model. */
  datatype Bounds = Bounds(minCookingTime: int, maxCookingTime: int, minAmount: int, maxAmount: int)

  /** The bounds are ordered and fit the PositiveSmallIntegerField range. */
  predicate ValidBounds(b: Bounds) {
    && 0 <= b.minCookingTime <= b.maxCookingTime <= 32767
    && 0 <= b.minAmount <= b.maxAmount <= 32767
  }

  predicate InRange(x: int, lo: int, hi: int) { lo <= x <= hi }

  /** The value range of a PositiveSmallIntegerField, which the serializer
      field generated for it enforces on its own. */
  predicate SmallPositive(x: int) { InRange(x, 0, 32767) }

  /** UniqueConstraint(name, measurement_unit) on Ingredient. */
  predicate UniqueIngredients(db: Db) {
    forall a, b :: a in db.ingredients && b in db.ingredients && a != b ==>
      db.ingredients[a] != db.ingredients[b]
  }

  /** Tag.name and Tag.slug are each unique. */
  predicate UniqueTags(db: Db) {
    forall a, b :: a in db.tags && b in db.tags && a != b ==>
      db.tags[a].name != db.tags[b].name && db.tags[a].slug != db.tags[b].slug
  }

  /** User.email is unique. */
  predicate UniqueEmails(db: Db) {
    forall a, b :: a in db.users && b in db.users && a != b ==>
      db.users[a].email != db.users[b].email
  }

  /** Recipe.short_code is unique, and every stored recipe has one. */
  predicate ShortCodesValid(db: Db) {
    && (forall a :: a in db.recipes ==> db.recipes[a].shortCode != [])
    && (forall a, b :: a in db.recipes && b in db.recipes && a != b ==>
          db.recipes[a].shortCode != db.recipes[b].shortCode)
  }

  /** The cooking_time validators. */
  predicate CookingTimesInBounds(db: Db, b: Bounds) {
    forall k :: k in db.recipes ==> InRange(db.recipes[k].cookingTime, b.minCookingTime, b.maxCookingTime)
  }

  /** The amount validators. */
  predicate AmountsInBounds(db: Db, b: Bounds) {
    forall k, i :: k in db.rows && 0 <= i < |db.rows[k]| ==> InRange(db.rows[k][i].amount, b.minAmount, b.maxAmount)
  }

  /** UniqueConstraint(recipe, ingredient) on RecipeIngredient. */
  predicate UniqueRows(db: Db) {
    forall k, i, j :: k in db.rows && 0 <= i < j < |db.rows[k]| ==>
      db.rows[k][i].ingredient != db.rows[k][j].ingredient
  }

  /** CheckConstraint prevent_self_follow on Follow. */
  predicate NoSelfFollow(db: Db) {
    forall p :: p in db.follows ==> p.0 != p.1
  }

  /** Every foreign key points at an existing row, and every recipe has its
      (possibly empty) list of ingredient rows. */
  predicate ForeignKeys(db: Db) {
    && (forall k :: k in db.recipes ==> db.recipes[k].author in db.users)
    && (forall k :: k in db.recipes ==> db.recipes[k].tags <= db.tags.Keys)
    && db.rows.Keys == db.recipes.Keys
    && (forall k, i :: k in db.rows && 0 <= i < |db.rows[k]| ==> db.rows[k][i].ingredient in db.ingredients)
    && (forall p :: p in db.favorites ==> p.0 in db.users && p.1 in db.recipes)
    && (forall p :: p in db.carts ==> p.0 in db.users && p.1 in db.recipes)
    && (forall p :: p in db.follows ==> p.0 in db.users && p.1 in db.users)
  }

  /** Every constraint of the schema except the amount bounds. */
  predicate WellFormedExceptAmounts(db: Db, b: Bounds) {
    && UniqueIngredients(db)
    && UniqueTags(db)
    && UniqueEmails(db)
    && ShortCodesValid(db)
    && CookingTimesInBounds(db, b)
    && UniqueRows(db)
    && NoSelfFollow(db)
    && ForeignKeys(db)
  }

  /** Every constraint of the schema. */
  predicate WellFormed(db: Db, b: Bounds) {
    WellFormedExceptAmounts(db, b) && AmountsInBounds(db, b)
  }

  /** Deleting a recipe and, by ON DELETE CASCADE, its ingredient rows and
      its favourite and shopping-cart rows. */
  function DeleteRecipe(db: Db, id: RecipeId): (d: Db)
    ensures d.recipes.Keys == db.recipes.Keys - {id}
    ensures forall k :: k in d.recipes ==> d.recipes[k] == db.recipes[k]
    ensures d.rows.Keys == db.rows.Keys - {id}
    ensures forall k :: k in d.rows ==> d.rows[k] == db.rows[k]
    ensures forall u, r :: (u, r) in d.favorites <==> (u, r) in db.favorites && r != id
    ensures forall u, r :: (u, r) in d.carts <==> (u, r) in db.carts && r != id
    ensures d.users == db.users && d.follows == db.follows
    ensures d.tags == db.tags && d.ingredients == db.ingredients
  {
    db.(recipes := (map k | k in db.recipes && k != id :: db.recipes[k]),
        rows := (map k | k in db.rows && k != id :: db.rows[k]),
        favorites := (set p | p in db.favorites && p.1 != id),
        carts := (set p | p in db.carts && p.1 != id))
  }

  lemma DeleteRecipePreserves(db: Db, b: Bounds, id: RecipeId)
    requires WellFormed(db, b)
    ensures WellFormed(DeleteRecipe(db, id), b)
  {
  }

  /** The recipes a user authored, which ON DELETE CASCADE removes with them. */
  function AuthoredBy(db: Db, u: UserId): set<RecipeId> {
    set k | k in db.recipes && db.recipes[k].author == u
  }

  /** Deleting a user and, by ON DELETE CASCADE, their recipes (with those
      recipes' rows, favourites and cart rows), their own favourite and cart
      rows, and every Follow row in which they are the follower or the
      followed author. */
  function DeleteUser(db: Db, u: UserId): (d: Db)
    ensures d.users.Keys == db.users.Keys - {u}
    ensures forall a, x :: (a, x) in d.follows <==> (a, x) in db.follows && a != u && x != u
    ensures forall k :: k in d.recipes <==> k in db.recipes && db.recipes[k].author != u
    ensures forall a, r :: (a, r) in d.favorites <==> (a, r) in db.favorites && a != u && r !in AuthoredBy(db, u)
    ensures forall a, r :: (a, r) in d.carts <==> (a, r) in db.carts && a != u && r !in AuthoredBy(db, u)
    ensures forall k :: k in d.users ==> d.users[k] == db.users[k]
    ensures forall k :: k in d.recipes ==> d.recipes[k] == db.recipes[k]
    ensures forall k :: k in d.rows <==> k in db.rows && k !in AuthoredBy(db, u)
    ensures forall k :: k in d.rows ==> d.rows[k] == db.rows[k]
    ensures d.tags == db.tags && d.ingredients == db.ingredients
  {
    var gone := AuthoredBy(db, u);
    Db((map k | k in db.users && k != u :: db.users[k]),
       db.tags,
       db.ingredients,
       (map k | k in db.recipes && k !in gone :: db.recipes[k]),
       (map k | k in db.rows && k !in gone :: db.rows[k]),
       (set p | p in db.favorites && p.0 != u && p.1 !in gone),
       (set p | p in db.carts && p.0 != u && p.1 !in gone),
       (set p | p in db.follows && p.0 != u && p.1 != u))
  }

  lemma DeleteUserPreserves(db: Db, b: Bounds, u: UserId)
    requires WellFormed(db, b)
    ensures WellFormed(DeleteUser(db, u), b)
  {
    var d := DeleteUser(db, u);
    assert ForeignKeys(d);
  }
}
