# foodgram backend — a Dafny model

foodgram is a recipe-sharing REST backend (Django with Django REST
framework). Users publish recipes made of ingredient rows and tags. They can
also favourite recipes, put recipes in a shopping cart, follow authors, and
download a shopping list that sums the ingredients of their cart. The
repository holds two parallel versions of the endpoints:

- `backend/api/*`;
- `backend/recipes/*` together with `backend/users/*`.

The two versions differ in details, and each is modelled as written.

`backend/api/views.py` imports two names that no file of the repository
defines. `IsAuthorOrReadOnly` comes from `api/permissions.py` (line 13), which
defines only `RecipePermission` and `UserPermission`. `UserCreateSerializer`
comes from `api/serializers.py` (line 20), which does not define it. As given,
importing that module fails, so none of its handlers can be reached. The
members of the api handlers model the handlers' bodies on the assumption that
both imports resolve. These members are:
- `Memberships.ApiAddRelation`, `ApiDeleteRelation`, `ApiSubscribe` and `ApiUnsubscribe`;
- `Users.ApiSetPassword` and `ApiDeleteAvatar`;
- `ApiWrite.Patch` and `PatchAsWritten`;
- `RecipeViews.ApiLink`.

The model is functional. The database is an immutable value `Schema.Db`:
- tables are maps keyed by primary key;
- the favourite, cart and follow tables are sets of pairs;
- the ingredient rows of each recipe are a list.

Every endpoint is a pure function from the store and the request to a status
and a new store. The schema's constraints are predicates, and the lemmas prove
that each write keeps them.

| file | module | what it models |
|---|---|---|
| common.dfy | Common | identifiers, `Option`/`Result`, HTTP methods and statuses, the requester, list helpers (`Distinct`, the `len(set(xs))` repeat test, `Keep` as a query filter, `xs[:n]`) |
| text.dfy | Text | the Python string operations the code applies: `strip`, `lower`, `replace`, `rstrip`, `in`, `str(n)`, `join`, `split` |
| schema.dfy | Schema | the models of `recipes/models.py` and `users/models.py`, their uniqueness, check and foreign-key constraints, and `ON DELETE CASCADE` |
| short_code.dfy | ShortCode | `Recipe.save`: `token_urlsafe(4)[:6]` redrawn until it is fresh |
| recipes_write.dfy | RecipesWrite | `RecipeWriteSerializer` of `recipes/serializers.py`: field checks, `validate`, `create`, `update` |
| api_write.dfy | ApiWrite | `RecipeWriteSerializer` of `api/serializers.py` |
| recipe_views.dfy | RecipeViews | create, update, destroy and `get_link` of `recipes/views.py`, and the api link |
| memberships.dfy | Memberships | the favourite, cart and follow endpoints of both versions |
| shopping_list.dfy | ShoppingList | `download_shopping_cart`: GROUP BY (name, unit), SUM, text rendering |
| permissions.dfy | Permissions | `RecipePermission`, `UserPermission`, and the `get_permissions` and `get_serializer_class` choices |
| filters.dfy | Filters | `RecipeFilter` and `IngredientFilter` |
| users.dfy | Users | username normalisation, `is_subscribed`, `recipes_limit`, password change, avatar deletion, sign-up |

Parameters of the model:
- The constants `MIN_COOKING_TIME`, `MAX_COOKING_TIME`, `MIN_AMOUNT` and `MAX_AMOUNT` live in a module that is not part of this model. They are the parameter `Schema.Bounds`.
- `check_password` and `make_password` are function parameters.
- The password strength rules (`validate_password`) are a function parameter.
- The Unicode word class `\w` of the username rule is a function parameter.
- The random bytes behind `secrets.token_urlsafe` are a supplied sequence of draws.
- The absolute URI that `build_absolute_uri` returns is a string parameter.

Three facts of the code that the model keeps to:
- The shopping list sums the ingredients of the recipes in the requester's shopping cart (`backend/recipes/views.py:157`).
- The ingredient filter is `icontains`, a case-insensitive substring match (`backend/recipes/filters.py:56`).
- `RecipeIngredient.amount` carries `MaxValueValidator(MAX_AMOUNT)` (`backend/recipes/models.py:167-182`). The recipes version's `ingredients` field is a list of plain dicts (`backend/recipes/serializers.py:95-100`). Its items are checked only for a known id and an amount of at least 1 (`backend/recipes/serializers.py:153-156`), so the model validator never runs on them. `RecipesWrite.AmountAboveMaximumStored` shows an amount above `MAX_AMOUNT` being stored.

## Model

| member | source | states |
|---|---|---|
| Common.RepeatsIffNotDistinct | backend/recipes/serializers.py:140-144 | the test `len(ids) != len(set(ids))` is true exactly when some id occurs twice |
| Common.Keep | backend/recipes/filters.py:25-30 | a filtered query holds only input rows that meet the condition and every input row that does, with no length gained and no duplicates added |
| Common.Take | backend/users/serializers.py:167 | `xs[:n]` is a prefix of `xs` of length `min(n, len(xs))` |
| Schema.DeleteRecipe | backend/recipes/models.py:155-160 | deleting a recipe removes it, its ingredient rows and every favourite and cart pair naming it, through the cascading foreign keys; every other row stays |
| Schema.DeleteRecipePreserves | backend/recipes/models.py:155-253 | the cascade after a recipe deletion leaves every uniqueness, bound and foreign-key constraint in force |
| Schema.DeleteUser | backend/users/models.py:42-56 | deleting a user removes every Follow row where they follow or are followed, their recipes with those recipes' rows and pairs, and their own favourite and cart pairs; every other user, recipe, ingredient row, tag and ingredient stays as it was |
| Schema.DeleteUserPreserves | backend/users/models.py:58-70 | the cascade after a user deletion leaves every constraint in force, the unique and no-self Follow constraints included |
| ShortCode.TokenUrlSafe | backend/recipes/models.py:140 | a token of four random bytes is six characters of the URL-safe base64 alphabet |
| ShortCode.DecodeTokenUrlSafe | backend/recipes/models.py:140 | decoding the six characters gives back the four bytes, so different draws give different candidate codes |
| ShortCode.Candidate | backend/recipes/models.py:140 | the `[:6]` cut keeps the whole six-character token |
| ShortCode.AssignedCode | backend/recipes/models.py:136-145 | a recipe with a non-blank code keeps it; otherwise the code is the first drawn candidate that no stored recipe holds, non-empty and at most 6 long, and every earlier candidate was taken; failure means every draw collided |
| ShortCode.Save | backend/recipes/models.py:138-143 | the draw-and-test loop returns the code `AssignedCode` defines |
| ShortCode.SaveKeepsCodesUnique | backend/recipes/models.py:121-126 | storing a recipe with its assigned code keeps every stored code non-blank and pairwise distinct |
| RecipesWrite.ItemsProblem | backend/recipes/serializers.py:146-156 | the item loop reports nothing exactly when every item names an existing ingredient and has an amount of at least 1, a missing amount counting as 0 |
| RecipesWrite.UnknownTagIn | backend/recipes/serializers.py:101-107 | the tags field reports a key exactly when some key names no tag, and the key it reports is one of those |
| RecipesWrite.IngredientsOk | backend/recipes/serializers.py:133-158 | `validate_ingredients` passes exactly when the list is non-empty, has no repeated id, and every item is valid |
| RecipesWrite.TagsOk | backend/recipes/serializers.py:160-167 | the tags field passes exactly when the list is non-empty, every key names a tag, and no key repeats |
| RecipesWrite.FieldErrorsEmpty | backend/recipes/serializers.py:95-117 | no field reports an error exactly when every sent field passes and, unless the request is a PATCH, every field was sent |
| RecipesWrite.Validate | backend/recipes/serializers.py:119-131 | accepted data is acceptable; it becomes one row per item with the same ingredient and amount, the tag list, the stripped name and text, and the cooking time |
| RecipesWrite.ValidateAccepts | backend/recipes/serializers.py:119-131 | validation accepts exactly the acceptable payloads: both lists present and valid, strings not blank, cooking time in bounds and at least 1, every field present unless PATCH; a PATCH without ingredients is refused by `validate` |
| RecipesWrite.EmptyListsRefused | backend/recipes/serializers.py:135-138 | an empty ingredients list, or an empty tags list, is reported as an `Empty` error of its own field |
| RecipesWrite.Create | backend/recipes/serializers.py:177-191 | a create inserts one recipe under a fresh key, authored by the requester, with a non-blank code no stored recipe holds |
| RecipesWrite.Insert | backend/recipes/serializers.py:179-189 | the new recipe has the requester as author, the sent tag set and cooking time, and exactly the sent ingredient rows; no other recipe changes |
| RecipesWrite.Update | backend/recipes/serializers.py:193-214 | a sent name, text or cooking time replaces the recipe's and an absent one keeps it; a sent ingredients list becomes exactly its rows and a sent tag list its tag set; an absent collection is left as it was; author, a non-blank code and the other recipes stay |
| RecipesWrite.ValidatedAdmissible | backend/recipes/serializers.py:140-152 | accepted data names existing ingredients, once each, and existing tags; its cooking time is in bounds; a create or PUT carries every field |
| RecipesWrite.CreatePreserves | backend/recipes/models.py:185-193 | a create of accepted data keeps every schema constraint except the amount bounds |
| RecipesWrite.InsertRows | backend/recipes/models.py:188-193 | the new recipe's rows keep at most one row per (recipe, ingredient) |
| RecipesWrite.UpdatePreserves | backend/recipes/serializers.py:193-214 | an update of accepted data of a stored recipe succeeds and keeps every schema constraint except the amount bounds |
| RecipesWrite.OverwriteRows | backend/recipes/models.py:188-193 | replacing a recipe's rows keeps at most one row per (recipe, ingredient) |
| RecipesWrite.OverwriteCodes | backend/recipes/models.py:121-126 | an update that keeps the recipe's code keeps the codes distinct |
| RecipesWrite.AmountAboveMaximumStored | backend/recipes/serializers.py:153-156 | when `MAX_AMOUNT` is below the column's 32767, an item with amount `MAX_AMOUNT + 1` passes validation, and the created recipe breaks the amount bounds of the model |
| ApiWrite.AllItemsOk | backend/api/serializers.py:67-74 | every nested item passes exactly when each names an existing ingredient and either has an amount that fits a positive small integer and the model's amount bounds, or has none and a missing amount is skipped, as a partial update does |
| ApiWrite.FieldErrorsEmpty | backend/api/serializers.py:138-160 | no field reports an error exactly when every sent field passes and, unless partial, every field was sent; a nested amount may be missing exactly when it is skipped |
| ApiWrite.Validate | backend/api/serializers.py:162-185 | with every nested amount required, even in a PATCH, accepted data is acceptable and is returned as one row per item, the tag list, the stripped strings and the cooking time |
| ApiWrite.ValidateAccepts | backend/api/serializers.py:162-185 | with every nested amount required, validation accepts exactly the acceptable payloads; once the fields pass, a missing or empty ingredients list, then a repeated ingredient, are `validate`'s own refusals |
| ApiWrite.ValidateAsWritten | backend/api/serializers.py:137-185 | as written, validation accepts exactly the acceptable payloads in which a PATCH may leave out a nested amount, and returns the payload itself |
| ApiWrite.EmptyIngredientsRefused | backend/api/serializers.py:138-143 | an empty ingredients list is an `Empty` error of the ingredients field |
| ApiWrite.Create | backend/api/serializers.py:200-209 | the new recipe's author is the requester, its tag set the sent list, and its rows one per item with the same ingredient and amount |
| ApiWrite.Update | backend/api/serializers.py:211-220 | the tag set becomes the sent list, the old rows are replaced by exactly the new list, and other recipes stay |
| ApiWrite.ValidatedAdmissible | backend/api/serializers.py:162-185 | accepted data fits the schema, amount bounds included |
| ApiWrite.CreateKeepsWellFormed | backend/api/serializers.py:187-209 | a create of accepted data keeps every schema constraint, amount bounds included |
| ApiWrite.AcceptedByBothVersions | backend/api/serializers.py:162-185 | when the lower bounds are at least 1, whatever this version accepts the recipes version accepts with the same validated data |
| ApiWrite.Patch | backend/api/serializers.py:211-220 | with every amount required, a PATCH answers 400 exactly when validation refuses and then writes nothing; accepted data of a recipe with a code gives 200, and the recipe's rows and tag set become the sent ones |
| ApiWrite.PatchAsWritten | backend/api/serializers.py:188-220 | as written, a PATCH answers 400 exactly when validation as written refuses, with nothing written; once an item without an amount passes, the answer is 500 |
| ApiWrite.UpdateKeepsAmounts | backend/recipes/models.py:167-182 | an update whose new rows are within the amount bounds leaves every stored row within them |
| ApiWrite.PatchKeepsWellFormed | backend/api/serializers.py:211-220 | a PATCH with every amount required keeps every schema constraint, amount bounds included |
| ApiWrite.SkipIrrelevant | backend/api/serializers.py:67-74 | when every sent item carries an amount, skipping missing amounts changes nothing about what is acceptable |
| ApiWrite.PatchVersionsAgree | backend/api/serializers.py:162-220 | when no sent item lacks its amount, the PATCH as written answers and writes exactly as the corrected one |
| ApiWrite.PatchWithoutAmountLosesRows | backend/api/serializers.py:211-220 | a PATCH that passes validation as written with an item lacking its amount ends in 500, with the new tag set and no ingredient rows left; the corrected PATCH answers 400 and writes nothing |
| ApiWrite.PatchItemWithoutAmount | backend/api/serializers.py:194 | the PATCH `{"ingredients": [{"id": i}], "tags": [t]}` deletes the recipe's rows and answers 500 as written, and is refused with 400 once amounts are required |
| Memberships.Relation | backend/recipes/views.py:108-133 | POST of an absent pair adds exactly it (201) and DELETE of a present pair removes exactly it (204); a duplicate add or absent delete is 400 with no change; 401 and 404 also change nothing |
| Memberships.ApiAddRelation | backend/api/views.py:98-110 | a 201 happens exactly for a logged-in user, a stored recipe and a pair not yet present, and adds exactly that pair; any other answer changes nothing |
| Memberships.ApiAddRefusesDuplicate | backend/api/serializers.py:241-249 | a logged-in user adding a stored recipe already in their favourites or cart gets 400, and nothing changes |
| Memberships.ApiDeleteRelation | backend/api/views.py:112-130 | nothing is ever added; a 204 removes exactly the requester's pair; any other answer changes nothing |
| Memberships.RelationVersionsAgree | backend/api/views.py:98-130 | the api favourite and cart endpoints answer every request as the recipes ones do |
| Memberships.AddThenRemove | backend/recipes/views.py:112-133 | adding an absent pair succeeds, a second add is refused unchanged, and removing it restores the set |
| Memberships.RelationKeepsWellFormed | backend/recipes/models.py:199-253 | a favourite or cart reply applied to the store keeps it well formed |
| Memberships.FollowCheck | backend/api/serializers.py:318-332 | a self-follow is refused as such before the duplicate test; a duplicate is refused exactly when the pair exists and is not a self pair |
| Memberships.Subscribe | backend/users/views.py:86-119 | POST adds exactly the edge (201) exactly when the author exists and it is neither a self-follow nor a duplicate; DELETE removes exactly an existing edge (204); every other answer changes nothing |
| Memberships.ApiSubscribe | backend/api/views.py:250-259 | a 201 adds exactly a non-self edge; any other answer changes nothing |
| Memberships.ApiUnsubscribe | backend/api/views.py:261-274 | a 204 removes exactly the requester's edge; any other answer changes nothing |
| Memberships.FollowVersionsAgree | backend/api/views.py:244-274 | the api subscribe and unsubscribe answer every request as the users version does |
| Memberships.FollowCheckOrder | backend/api/serializers.py:323-330 | with no self pair stored, the check refuses exactly self-follows and duplicates, and a duplicate is always reported as one |
| Memberships.SubscribeKeepsWellFormed | backend/users/models.py:58-70 | a follow reply applied to the store keeps it well formed, so no self-follow is ever stored |
| Memberships.FollowThenUnfollow | backend/users/views.py:105-119 | following and unfollowing restores the edge set |
| ShoppingList.RecipeEntries | backend/recipes/views.py:157-161 | through the outer join, every cart recipe yields at least one joined row |
| ShoppingList.Aggregate | backend/recipes/views.py:158-161 | the groups have distinct keys; their keys are exactly those of the joined rows; each total is the sum of the amounts with that key; the totals add up to the sum of all amounts |
| ShoppingList.Conservation | backend/recipes/views.py:161 | no amount is lost or counted twice by the grouping |
| ShoppingList.KeyOfInjective | backend/recipes/models.py:56-61 | two stored ingredients share a (name, unit) key exactly when they are the same ingredient |
| ShoppingList.GroupByNameUnitIsById | backend/recipes/models.py:56-61 | the (name, unit) total of an ingredient equals the sum of its amounts over the cart recipes' rows |
| ShoppingList.LineOneLine | backend/recipes/views.py:169 | a line holds no line break when the name and unit hold none |
| ShoppingList.RenderSplits | backend/recipes/views.py:162-173 | splitting the file at line breaks gives the header, one empty line, then the group lines |
| ShoppingList.CartRecipes | backend/recipes/views.py:157 | the cart enumeration lists each of the requester's cart recipes exactly once |
| ShoppingList.Download | backend/recipes/views.py:155-177 | an anonymous request passes the GET permission and fails with 500 and no file; a logged-in user gets 200 and the rendering of groups that have distinct keys, cover exactly the joined rows of their cart, and hold each key's total |
| Permissions.RecipeHasPermission | backend/api/permissions.py:7-12 | safe methods pass, POST passes exactly for a logged-in user, and every other method passes |
| Permissions.RecipeHasObjectPermission | backend/api/permissions.py:14-17 | object access passes exactly for a safe method or for the recipe's author |
| Permissions.RecipePermissionSummary | backend/api/permissions.py:4-17 | reading is open; creating needs a login; changing or deleting a stored recipe is for its author alone |
| Permissions.UserHasPermission | backend/api/permissions.py:23-26 | create, list and retrieve are open; every other action needs a login |
| Permissions.UserViewGuard | backend/users/views.py:36-40 | exactly create, list and retrieve get AllowAny |
| Permissions.UserGuardsAgree | backend/api/views.py:186-190 | the user view sets' guards decide exactly as `UserPermission` does |
| Permissions.RecipesViewGuard | backend/recipes/views.py:63-67 | no check for safe methods, a login for every other one |
| Permissions.ApiRecipeGuard | backend/api/views.py:55-62 | AllowAny exactly for safe methods, IsAuthenticated exactly for POST, the author check for the rest |
| Permissions.RecipeGuardsAgree | backend/api/views.py:55-60 | the two recipe view sets guard safe methods and POST alike |
| Permissions.RecipesSerializer | backend/recipes/views.py:57-61 | the read serializer exactly for the list and retrieve actions |
| Permissions.ApiSerializer | backend/api/views.py:64-68 | the read serializer exactly for safe methods |
| Permissions.SerializerChoicesAgree | backend/recipes/views.py:57-61 | on the standard routes, the action-based and the method-based choices pick the same serializer |
| Filters.FilterTags | backend/recipes/filters.py:25-30 | an empty value keeps the query; otherwise exactly the input recipes with some tag slug among the values, each once |
| Filters.FilterMember | backend/recipes/filters.py:10-50 | a value that is not blank once stripped, sent by a logged-in user, keeps exactly the requester's favourites or cart recipes; a blank or whitespace-only value, or an anonymous requester, leaves the query unchanged |
| Filters.BlankMemberValueSkipped | backend/recipes/filters.py:10-13 | `?is_favorited=%20` leaves the query unchanged, for every requester |
| Filters.FilterAuthor | backend/recipes/filters.py:15-17 | an author value keeps exactly that author's recipes |
| Filters.BadSlug | backend/recipes/filters.py:19-23 | a tag value is refused exactly when some value is not a tag's slug |
| Filters.Apply | backend/recipes/filters.py:6-23 | the filter set is invalid exactly when the author is no user or some tag value is not a slug |
| Filters.NarrowSound | backend/recipes/filters.py:25-50 | the filters keep only input recipes that meet every applied condition |
| Filters.NarrowComplete | backend/recipes/filters.py:25-50 | the filters keep every input recipe that meets every applied condition |
| Filters.ApplySelects | backend/recipes/filters.py:6-50 | a valid filter set returns exactly the input recipes that meet every condition, each once: a subset of its input |
| Filters.FilterIngredients | backend/recipes/filters.py:53-60 | the name is stripped first; a blank name keeps every ingredient, otherwise exactly those whose name contains the stripped name, ignoring case |
| Filters.IngredientFilterIgnoresCase | backend/recipes/filters.py:56 | lower-casing the query does not change the result |
| Filters.IngredientFilterIgnoresPadding | backend/recipes/filters.py:56 | a name sent with a space on each side finds exactly what the name itself finds |
| Users.ValidateUsername | backend/users/serializers.py:34-51 | the stripped, lower-cased name is returned exactly when it is not reserved and meets the character rule; a reserved name is refused as the normalised name |
| Users.NormaliseIdempotent | backend/users/serializers.py:36 | normalising twice is normalising once |
| Users.ValidateUsernameIdempotent | backend/users/serializers.py:34-51 | an accepted name validates again to itself |
| Users.PaddedReservedRefused | backend/users/serializers.py:32-41 | a reserved name is refused whatever its case and with spaces around it |
| Users.PaddedAdminRefused | backend/users/serializers.py:36-41 | `" Admin "` is refused as `admin` |
| Users.IsSubscribed | backend/users/serializers.py:123-130 | true exactly for a logged-in requester who follows the author |
| Users.ConstantTrueIsConsistent | backend/users/serializers.py:153-155 | the constant True of the subscription listings agrees with `is_subscribed` for every listed author |
| Users.ApiRecipesShown | backend/api/serializers.py:294-308 | a non-negative integer limit n gives the first n recipes; without a request, or with an absent, non-integer or negative limit, all of them are shown |
| Users.FollowRecipesShown | backend/users/serializers.py:161-171 | the limit defaults to 3 and a non-negative integer limit `n` shows exactly the first `min(n, len)` recipes; a non-integer or negative limit is an error |
| Users.RecipeLimitsCompared | backend/users/serializers.py:164-167 | both versions agree on every non-negative limit, and without a limit they differ once an author has more than 3 recipes |
| Users.ApiSetPassword | backend/api/views.py:208-227 | the password changes (204) exactly when both passwords are given and non-empty and the current one checks; otherwise 400 and nothing changes |
| Users.UsersSetPassword | backend/users/serializers.py:90-107 | the password changes to the stripped new one exactly when the stripped current one checks and the stripped new one is non-blank and strong; otherwise 400 and nothing changes |
| Users.WrongPasswordRefused | backend/users/serializers.py:97-101 | both versions refuse a wrong current password and keep the stored one |
| Users.NewPasswordTrimmedOnlyByUsers | backend/users/serializers.py:92-95 | a new password sent with spaces around it is stored as sent by the api version and stripped by the users version |
| Users.DeleteAvatar | backend/users/views.py:131-136 | the avatar is None afterwards and nothing else changes |
| Users.ApiDeleteAvatar | backend/api/views.py:290-297 | a non-empty avatar is cleared to None, an empty file name is left as it is; nothing else of the user changes |
| Users.AvatarDeletionsAgree | backend/api/views.py:294-296 | the two deletions leave the same user exactly when the stored avatar is not the empty name |
| Users.NormalizeEmailParts | backend/users/serializers.py:84 | on a trimmed address, `create_user` keeps the part before the last `@` as it is and lower-cases the domain after it |
| Users.NormalizeEmailIdempotent | backend/users/serializers.py:84 | normalising an address twice is normalising it once |
| Users.SignUpStatus | backend/users/serializers.py:81-87 | the integrity error is answered with 500 and every validation refusal with 400 |
| Users.BlankFieldRefused | backend/users/serializers.py:59-79 | a sign-up with a blank or missing email, username, password, first name or last name is refused with 400 by both versions |
| Users.PaddedPasswordStoredTrimmed | backend/users/serializers.py:69-85 | a password sent with a space on each side is stored by both versions as the hash of the password without them |
| Users.RegisterAsWritten | backend/users/serializers.py:59-87 | as written, a sign-up is stored exactly when no field is blank once stripped, the stripped address and name as sent are new, the name validates and the stored forms are new too; it ends in the integrity error exactly when those checks pass but a stored form is taken; the stored user has the normalised address and name, the stripped first and last names and the hash of the stripped password |
| Users.Register | backend/users/serializers.py:54-87 | corrected: a sign-up succeeds exactly when no field is blank, the address as it would be stored is new, the name validates and the normalised name is new; the user is stored as by the version as written, and the integrity error never happens |
| Users.RegisterVersionsAgree | backend/users/serializers.py:54-87 | over a store in normal form both sign-ups store the same user for the same requests; where the version as written fails with the integrity error, the corrected one refuses the address or the name with 400 |
| Users.RegisterAsWrittenDuplicates | backend/users/serializers.py:64-68 | a name whose normalised form is stored but whose form as sent is not passes every check; as written the INSERT then fails with the integrity error, and the corrected sign-up refuses the name |
| Users.RegisterAsWrittenDuplicatesBob | backend/users/serializers.py:34-36 | signing up as `Bob` next to a stored `bob` ends in the integrity error as written, and in a refused name once corrected |
| Users.RegisterAsWrittenEmailClash | backend/users/serializers.py:59-63 | signing up as `a@EXAMPLE.com` next to a stored `a@example.com` ends in the integrity error as written, and in a refused address once corrected |
| Users.RegisterKeepsUnique | backend/users/models.py:11-14 | a corrected sign-up keeps emails and usernames unique, the store well formed, and every stored address and name in normal form |
| Users.RegisterAsWrittenKeepsUnique | backend/users/models.py:11-14 | a sign-up as written that succeeds keeps the same guarantees: a duplicate never reaches the store, because the unique columns refuse it |
| RecipeViews.CreateView | backend/recipes/views.py:69-71 | 401 exactly for the anonymous user, 400 exactly for a refused payload, 201 exactly when the create succeeds with the requester as author; otherwise the store is unchanged |
| RecipeViews.UpdateView | backend/recipes/views.py:73-79 | 401, 404 and 403 exactly for the anonymous user, an unknown recipe and a non-author; 200 only for the author with accepted data, and then the store is the update's; otherwise the store is unchanged |
| RecipeViews.DestroyView | backend/recipes/views.py:81-88 | 204 exactly for the author of a stored recipe, and then the recipe and its dependent rows are gone; otherwise the store is unchanged |
| RecipeViews.WritesRefusedAsRecipePermission | backend/recipes/views.py:73-88 | the view's own checks refuse exactly what `RecipePermission` refuses, with 401 for the anonymous user and 403 otherwise |
| RecipeViews.CreateViewKeepsWellFormed | backend/recipes/views.py:69-71 | a create through the view keeps the store within its schema, amount bounds aside |
| RecipeViews.UpdateViewKeepsWellFormed | backend/recipes/views.py:73-79 | an update through the view keeps the store within its schema, amount bounds aside |
| RecipeViews.DestroyKeepsWellFormed | backend/recipes/views.py:81-88 | a destroy keeps every schema constraint |
| RecipeViews.RecipesLink | backend/recipes/views.py:144-146 | the link is a prefix with no trailing slash, then `/recipes/` and the recipe's id |
| RecipeViews.GetLink | backend/recipes/views.py:135-148 | for anyone, logged in or not: 404 exactly for an unknown recipe, otherwise the recipe's link |
| RecipeViews.LinkNamesRecipe | backend/recipes/views.py:144-146 | the recipe's id reads back from the digits ending the link |
| RecipeViews.ApiLink | backend/recipes/models.py:147-149 | the api link is the request's origin, then `/recipes/`, then the decimal digits of the recipe's key, which read back as the key, then a final slash |
| RecipeViews.LinksCompared | backend/api/views.py:138-142 | on an origin without `/api/` or a trailing slash, the two versions' links differ only by the api one's final slash |

## Left out

- Database and HTTP input/output, response bodies and read serializers are not modelled. Only the statuses and the stored state are modelled. This leaves out `is_favorited`, `is_in_shopping_cart`, `recipes_count` and the image URLs.
- The short-code loop in the source draws until it finds a free code and may never stop. `ShortCode.AssignedCode` works over a finite sequence of draws. Running out of draws is an error, which the recipe views answer with 500.
- ShortCode.Save: its contract does not state termination of the unbounded loop. Only the outcome on a given finite sequence of draws is stated.
- Concurrency is not modelled. This covers the check-then-save races on short codes and on membership inserts, and the lack of a transaction around replacing a recipe's ingredient rows.
- Base64 image decoding and `ImageField` validation (the `Base64ImageField` classes) are not modelled. They are library calls, and `image` is not a field of the model's payload.
- Both write serializers declare `image` with `required=True, allow_null=True`, so a POST or PUT without `"image"` is refused with 400. The model assumes every create and full update carries an image, or null. `RecipesWrite.ValidateAccepts`, `ApiWrite.ValidateAccepts` and `RecipeViews.CreateView` therefore accept such a request where the code refuses it.
- Password hashing is not modelled, nor are `check_password` and the strength rules of `validate_password`. They are function parameters.
- The Unicode `\w` class of `UnicodeUsernameValidator` is not modelled. It is a parameter.
- `str.lower()` is modelled for Latin and Cyrillic capitals only. The database's case folding for `icontains` is modelled the same way.
- Users.Register: does not model `validate_password` on the sign-up password or the email format check of `EmailField`. Both are library validators. Only the first refusal is reported, not the full error dictionary. A missing field is given as the empty string, so "required" and "may not be blank" are one refusal.
- Users.RegisterAsWritten: the same library validators are left out as for `Users.Register`. The integrity error stands for a clash on either unique column. Which constraint the database reports is not modelled.
- Users.Register: the NFKC normalisation that `create_user` applies to the name is not modelled. Names are compared after `strip` and `lower` only.
- RecipesWrite.Create: stores any amount of at least 1 that the recipes version accepts. The column is a `PositiveSmallIntegerField`, so on a database that enforces its range, such as PostgreSQL, an amount above 32767 fails the row's INSERT with a `DataError`. That failure comes after the recipe and its tags are saved, and the server answers 500. The model states neither the 500 nor the partial write, because the outcome depends on the database.
- RecipesWrite.Update: likewise, an amount above 32767 fails after the recipe's old ingredient rows are deleted. This is not modelled, for the same reason.
- The `max_length` limits of the character fields are not modelled.
- `backend/api/views.py` imports `IsAuthorOrReadOnly` from `api/permissions.py` and `UserCreateSerializer` from `api/serializers.py`, and neither file defines it. As given, the api view module fails at import. Every api handler member assumes both names exist elsewhere. `Permissions.ApiRecipeGuard` returns `IsAuthorOrReadOnly` as a label, and nothing decides it.
- Pagination (`api/pagination.py`), the admin modules and the CSV loader are not modelled. They are framework configuration and file input/output.
- The order of the shopping-list groups is whatever the database returns. The model fixes one order, and every property is stated independently of it.
- `Users.ApiRecipesShown` treats a negative limit as showing every recipe. This assumes a Django version whose querysets raise `ValueError` on negative slicing, which the serializer catches. Under the same assumption `Users.FollowRecipesShown` reports an error, because the users version does not catch it.
- An ingredient dict without an `"id"` key is not modelled. In the recipes version it raises `KeyError` and the server answers 500. In an api PATCH the missing key is skipped, and `validate` raises `KeyError` before any write. Non-integer ids, amounts and cooking times are not modelled either.
- `UserViewSet.me`, the avatar upload, and the subscription listings are not modelled. They are read and profile endpoints outside the modelled rules.

## Findings

| source | as written | input that shows it | evidently intended | confidence | as-written member | corrected member |
|---|---|---|---|---|---|---|
| backend/users/serializers.py:64-68 | the `UniqueValidator` on `username` compares the stripped name as sent with the stored names; `validate_username` then lower-cases it, and the lower-cased name is stored | `bob` is stored and a new user signs up as `Bob`: `Bob` is not stored, so every check passes; the INSERT of `create_user` then violates the unique username column, and the server answers 500 with nothing stored | the uniqueness test applies to the normalised name that is stored, and a taken name is refused with 400 | not executed | Users.RegisterAsWrittenDuplicatesBob | Users.Register |
| backend/users/serializers.py:59-63 | the `UniqueValidator` on `email` compares the stripped address as sent with the stored ones; `create_user` lower-cases its domain before storing it | `a@example.com` is stored and a new user signs up as `a@EXAMPLE.com`: validation passes, and the INSERT violates the unique email column, so the server answers 500 | the uniqueness test applies to the address as it is stored, and a taken address is refused with 400 | not executed | Users.RegisterAsWrittenEmailClash | Users.Register |
| backend/api/serializers.py:211-220 | in a PATCH the framework skips a nested item's missing `amount`; `update` saves the fields, sets the tags and deletes every ingredient row before line 194 reads `amount` | a PATCH of `{"ingredients": [{"id": i}], "tags": [t]}` for a stored ingredient `i` and tag `t`: `KeyError`, 500, and the recipe keeps no ingredient at all | the amount is required in every item, and the request is refused with 400 before anything is written | not executed | ApiWrite.PatchItemWithoutAmount | ApiWrite.Patch |
