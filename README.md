# Sweet shop management: a verified model of its core

This project is a Dafny model of the sweet shop's back end and of its client cart. It covers six parts, and proves properties of each.

- **Sessions.** `AuthService` logs users in, rotates refresh tokens, logs them out and sweeps expired tokens. It works over the `refresh_tokens` table (`RefreshTokenRepository`) and the `RefreshToken` entity. Every operation keeps the invariant that no user owns two refresh tokens and that every token belongs to a stored user.
- **Request authentication.** `JwtAuthenticationFilter.doFilterInternal` decides what the security context holds after a request. The decision is stated as one function, `Resolve`, and the filter method is proved to compute it while passing the request down the chain exactly once.
- **Users.** `UserService` handles registration with a unique email and the default `USER` role, lookups that fail with `UserNotFoundException`, the password check, and enabling or disabling an account.
- **Inventory.** The `Sweet` entity's guarded stock movements, the `SweetService` operations (create, update, delete, purchase, restock, search) and the `SweetRepository` queries.
- **Categories.** The `Category` entity's list of sweets with its back-pointers, the `CategoryService` operations (create, rename, delete) and the `CategoryRepository` queries.
- **Cart.** The client cart of `CartContext.js`, as functions from one list of entries to the next.

Modelling choices:

- **Tables and services.** Database tables are sequences of row values held in fields of a class (`RefreshTokenRepository`, `UserRepository`, `Catalog`). A service is a class that holds its repositories. Its methods change the tables and state the new tables in terms of specification functions (`Issue`, `Rotate`, `ReplaceSweet`, `WithoutCategory`, ...), and lemmas prove what the source promises about those functions.
- **Entities.** An entity that the source updates in place (`RefreshToken`, `Sweet`, `Category`) is a class with those fields.
- **Exceptions.** A thrown exception is a `Failure` of a `Result`. Each service call is one transaction, so a failure leaves every table as it was.
- **Clock and token values.** The clock (`LocalDateTime.now()`) is a parameter `now` in whole seconds. The refresh value that `JwtUtil.generateRefreshToken` mints is a parameter `generated`, required not to be stored already.
- **Opaque helpers.** `JwtUtil` and the `PasswordEncoder` are opaque functions supplied from outside. A call that may throw returns `Call<T>`.
- **Money.** Prices (`BigDecimal` with two decimals) are whole cents.

The user entity and `UserRepository`/`RoleRepository` are not part of this model. The user row keeps only the fields the services touch.

## Model

| member | source | states |
|---|---|---|
| Auth.AuthService.CheckCredentials | backend/src/main/java/com/sweetshop/service/AuthService.java:34-42 | login's gate, one exception per step in source order: an unknown email fails with the lookup's UserNotFoundException; a known user with a wrong password fails with "Invalid email or password"; a right password on a disabled account fails with "Account is disabled"; success is a stored, enabled user with that email whose password matches |
| Auth.AuthService.Owner | backend/src/main/java/com/sweetshop/service/AuthService.java:75 | the owner of a stored token is a stored user with the token's user id |
| Auth.AuthService.SaveNewToken | backend/src/main/java/com/sweetshop/service/AuthService.java:53-58 | the new token row carries the given value, the owner and an expiry seven days after `now`, gets the next id and is appended; the store stays well formed and every owner stays stored |
| Auth.AuthService.Login | backend/src/main/java/com/sweetshop/service/AuthService.java:33-61 | a rejected login returns the gate's exception and leaves the store and id generator unchanged; an accepted one returns the access token, the new refresh value, "Bearer" and 1800, replaces all the user's tokens by exactly one new token expiring now + 7 days, and leaves other users' tokens alone (`Issue`); the one-token-per-user invariant holds after either |
| Auth.AuthService.RefreshToken | backend/src/main/java/com/sweetshop/service/AuthService.java:66-94 | an unknown value fails with "Invalid refresh token" and changes nothing; an expired token fails with "Refresh token has expired" and, since the class-wide transaction rolls its deletion back on that unchecked exception, the store ends unchanged and the token is still found; a live one is rotated into a new token for the same owner (whose enabled flag is not checked) expiring now + 7 days, that owner keeps exactly one token, and the old value is no longer found |
| Auth.AuthService.Logout | backend/src/main/java/com/sweetshop/service/AuthService.java:99-105 | a stored value's row is deleted and an unknown value changes nothing, so the value is never found afterwards and a repeated logout is harmless |
| Auth.AuthService.CleanupExpiredTokens | backend/src/main/java/com/sweetshop/service/AuthService.java:110-114 | the store keeps exactly the live rows, the returned count is the number of rows `findExpiredTokens(now)` listed, and none is left |
| Auth.OwnersStayStored | backend/src/main/java/com/sweetshop/entity/RefreshToken.java:27-30 | a store that only loses rows or gains one row for a stored user keeps every token's owner stored |
| RefreshTokenEntity.Expired | backend/src/main/java/com/sweetshop/entity/RefreshToken.java:63-65 | a token is expired exactly when its expiry instant lies strictly before the clock reading, so it is still live at that instant |
| RefreshTokenEntity.RefreshToken.IsExpired | backend/src/main/java/com/sweetshop/entity/RefreshToken.java:63-65 | `isExpired()` holds exactly when the entity's expiry lies strictly before `now` |
| RefreshTokenEntity.RefreshToken.Equals | backend/src/main/java/com/sweetshop/entity/RefreshToken.java:71-77 | only a non-null object can be equal, and two distinct objects are unequal while either has no id |
| RefreshTokenEntity.RefreshToken.HashCode | backend/src/main/java/com/sweetshop/entity/RefreshToken.java:79-82 | the hash is the class constant, whatever the id |
| RefreshTokenEntity.PlusDays | backend/src/main/java/com/sweetshop/service/AuthService.java:56 | `plusDays(d)` moves the instant exactly d days forward and never backwards for d >= 0 |
| RefreshTokenEntity.TokenExcerpt | backend/src/main/java/com/sweetshop/entity/RefreshToken.java:88 | `toString` shows a prefix of the token value of length min(length, 10) |
| RefreshTokenEntity.RefreshToken.constructor | backend/src/main/java/com/sweetshop/entity/RefreshToken.java:40-44 | stores exactly the given token, user and expiry, with no id yet |
| RefreshTokenEntity.RefreshToken.Extend | backend/src/main/java/com/sweetshop/entity/RefreshToken.java:67-69 | the expiry becomes now + days, whatever it was before, so a non-negative extension leaves the token live now |
| RefreshTokenEntity.EqualsIsIdentityOrSavedId | backend/src/main/java/com/sweetshop/entity/RefreshToken.java:71-82 | equality is reflexive, symmetric and transitive, two distinct objects are unequal while either is unsaved, and the constant hash agrees with equality |
| RefreshTokenStore.TokensOf | backend/src/main/java/com/sweetshop/repository/RefreshTokenRepository.java:19 | the user's rows are exactly the stored rows whose owner is that user |
| RefreshTokenStore.ExpiredRows | backend/src/main/java/com/sweetshop/repository/RefreshTokenRepository.java:32-33 | exactly the stored rows for which `isExpired(now)` holds |
| RefreshTokenStore.LiveRows | backend/src/main/java/com/sweetshop/repository/RefreshTokenRepository.java:23-26 | exactly the stored rows for which `isExpired(now)` does not hold: what the sweep keeps |
| RefreshTokenStore.WithoutUser | backend/src/main/java/com/sweetshop/repository/RefreshTokenRepository.java:28-30 | exactly the stored rows owned by another user: what deleting the user's tokens keeps |
| RefreshTokenStore.WithoutId | backend/src/main/java/com/sweetshop/service/AuthService.java:71 | exactly the stored rows with another id: what deleting an entity keeps |
| RefreshTokenStore.Issue | backend/src/main/java/com/sweetshop/service/AuthService.java:48-58 | the table after a login holds the other users' rows and the new row, which comes last |
| RefreshTokenStore.Rotate | backend/src/main/java/com/sweetshop/service/AuthService.java:81-91 | the table after a refresh holds every row but the used one, and the new row, which comes last |
| RefreshTokenStore.Lookup | backend/src/main/java/com/sweetshop/repository/RefreshTokenRepository.java:17 | finds a stored row carrying the value, and finds none exactly when no row carries it |
| RefreshTokenStore.LookupFindsTheRow | backend/src/main/java/com/sweetshop/entity/RefreshToken.java:16 | with the token column unique, the lookup of a stored row's value returns that row |
| RefreshTokenStore.SweepPartitions | backend/src/main/java/com/sweetshop/repository/RefreshTokenRepository.java:23-26 | the deleted rows and the rows left add up to the whole table |
| RefreshTokenStore.SweepDeletesExactlyExpired | backend/src/main/java/com/sweetshop/repository/RefreshTokenRepository.java:25 | a stored row is swept at `now` iff `isExpired(now)` holds of it, and kept iff it does not |
| RefreshTokenStore.SweepLeavesNothingExpired | backend/src/main/java/com/sweetshop/repository/RefreshTokenRepository.java:23-26 | after a sweep nothing expired remains, so a second sweep with the same `now` deletes nothing |
| RefreshTokenStore.DeleteByUserPartitions | backend/src/main/java/com/sweetshop/repository/RefreshTokenRepository.java:28-30 | the user's rows and the others add up to the table, and after the deletion the user owns none |
| RefreshTokenStore.WithoutUserKeepsOthers | backend/src/main/java/com/sweetshop/repository/RefreshTokenRepository.java:21 | deleting one user's tokens leaves every other user's tokens as they were |
| RefreshTokenStore.IssueLeavesOneToken | backend/src/main/java/com/sweetshop/service/AuthService.java:48-58 | after a login the user owns exactly the new token, and every other user's tokens are unchanged |
| RefreshTokenStore.IssueKeepsOneTokenPerUser | backend/src/main/java/com/sweetshop/service/AuthService.java:48-58 | a login keeps the one-token-per-user invariant |
| RefreshTokenStore.RotateReplacesTheToken | backend/src/main/java/com/sweetshop/service/AuthService.java:81-91 | after a rotation the owner holds exactly the new token, other users are unaffected, and the invariant holds |
| RefreshTokenStore.RotateForgetsOldValue | backend/src/main/java/com/sweetshop/service/AuthService.java:81-91 | after a rotation the old value is no longer found, so replaying it fails |
| RefreshTokenStore.DeleteForgetsValue | backend/src/main/java/com/sweetshop/service/AuthService.java:99-105 | after deleting a stored token its value is no longer found |
| RefreshTokenStore.DeleteKeepsOneTokenPerUser | backend/src/main/java/com/sweetshop/service/AuthService.java:99-105 | deleting a row by id keeps the one-token-per-user invariant |
| RefreshTokenStore.SweepKeepsOneTokenPerUser | backend/src/main/java/com/sweetshop/service/AuthService.java:110-114 | sweeping expired rows keeps the one-token-per-user invariant |
| RefreshTokenStore.RefreshTokenRepository.FindByToken | backend/src/main/java/com/sweetshop/repository/RefreshTokenRepository.java:17 | returns the unique row carrying the value, or empty exactly when the value is not stored |
| RefreshTokenStore.RefreshTokenRepository.FindByUser | backend/src/main/java/com/sweetshop/repository/RefreshTokenRepository.java:19 | returns a row of the user, and one exists iff the user owns a row |
| RefreshTokenStore.RefreshTokenRepository.FindExpiredTokens | backend/src/main/java/com/sweetshop/repository/RefreshTokenRepository.java:32-33 | lists exactly the stored rows with expiry before `now`, the ones the sweep deletes |
| RefreshTokenStore.RefreshTokenRepository.Save | backend/src/main/java/com/sweetshop/entity/RefreshToken.java:12-18 | a fresh value is inserted under the next generated id, which is written back into the entity; the table stays keyed |
| RefreshTokenStore.RefreshTokenRepository.Delete | backend/src/main/java/com/sweetshop/service/AuthService.java:71 | removes the row with the entity's id and nothing else |
| RefreshTokenStore.RefreshTokenRepository.DeleteAllByUser | backend/src/main/java/com/sweetshop/repository/RefreshTokenRepository.java:21 | removes every row of the user, after which `findByUser` is empty |
| RefreshTokenStore.RefreshTokenRepository.DeleteByUser | backend/src/main/java/com/sweetshop/repository/RefreshTokenRepository.java:28-30 | removes every row of the user and returns how many there were; `findByUser` is empty afterwards |
| RefreshTokenStore.RefreshTokenRepository.DeleteByExpiryDateBefore | backend/src/main/java/com/sweetshop/repository/RefreshTokenRepository.java:23-26 | keeps exactly the live rows, returns the number removed (what `findExpiredTokens` listed), and leaves nothing expired |
| JwtFilter.ExtractBearer | backend/src/main/java/com/sweetshop/security/JwtAuthenticationFilter.java:41-42 | a token is extracted iff the header is present and starts with the case-sensitive "Bearer ", and the header is the prefix followed by the token |
| JwtFilter.ExtractBearerRoundTrip | backend/src/main/java/com/sweetshop/security/JwtAuthenticationFilter.java:41-42 | extracting from "Bearer " + t gives back t |
| JwtFilter.Authorities | backend/src/main/java/com/sweetshop/security/JwtAuthenticationFilter.java:58-60 | one authority per role, each "ROLE_" followed by the role's name (listed in the order the model keeps the roles) |
| JwtFilter.RoleOfAuthority | backend/src/main/java/com/sweetshop/security/JwtAuthenticationFilter.java:59 | the role name behind an authority exists iff it carries "ROLE_", and prefixing it gives the authority back |
| JwtFilter.AuthoritiesRecoverRoleNames | backend/src/main/java/com/sweetshop/security/JwtAuthenticationFilter.java:58-60 | every authority leads back to its role's name, and two role lists give the same authorities iff their names agree position by position |
| JwtFilter.EmailClaim | backend/src/main/java/com/sweetshop/security/JwtAuthenticationFilter.java:43-47 | an email extraction that throws yields no email; otherwise the extracted subject |
| JwtFilter.Resolve | backend/src/main/java/com/sweetshop/security/JwtAuthenticationFilter.java:35-72 | an existing authentication is never replaced; no bearer header, no extractable subject or an unknown subject leaves the context as it was; any change installs a stored user whose email is the subject, for whom the token validates, with that user's authorities; and such a user is always installed into an empty context |
| JwtFilter.DisabledUserIsAuthenticated | backend/src/main/java/com/sweetshop/security/JwtAuthenticationFilter.java:55-65 | a disabled user with a valid bearer token is authenticated like an enabled one |
| JwtFilter.FilterChain.DoFilter | backend/src/main/java/com/sweetshop/security/JwtAuthenticationFilter.java:75 | the request is passed on once more |
| JwtFilter.JwtAuthenticationFilter.DoFilterInternal | backend/src/main/java/com/sweetshop/security/JwtAuthenticationFilter.java:32-76 | the context ends up as `Resolve` decides, every exception on the way is swallowed, and the request is passed down the chain exactly once |
| Users.UserWithEmail | backend/src/main/java/com/sweetshop/service/UserService.java:51 | finds a stored user with the email, and one is found iff some stored user has it |
| Users.UserWithId | backend/src/main/java/com/sweetshop/service/UserService.java:57 | finds a stored user with the id, and one is found iff some stored user has it |
| Users.RoleNamed | backend/src/main/java/com/sweetshop/service/UserService.java:42-43 | finds a stored role with the name, and one is found iff some role has it |
| Users.ReplaceById | backend/src/main/java/com/sweetshop/service/UserService.java:82 | `save` of a stored user replaces the row with its id and keeps every other row where it was |
| Users.UniqueEmailFindsTheUser | backend/src/main/java/com/sweetshop/service/UserService.java:30-32 | with unique emails, the lookup of a stored user's email returns that user |
| Users.UniqueIdFindsTheUser | backend/src/main/java/com/sweetshop/service/UserService.java:55-59 | with unique ids, the lookup of a stored user's id returns that user |
| Users.ReplaceKeepsKeys | backend/src/main/java/com/sweetshop/service/UserService.java:79-89 | saving a stored user with its own email keeps emails and ids unique |
| Users.UserRepository.Insert | backend/src/main/java/com/sweetshop/service/UserService.java:46 | a user with a free email is appended under the next id; the table stays keyed |
| Users.UserRepository.Update | backend/src/main/java/com/sweetshop/service/UserService.java:79-89 | a stored user whose email is unchanged replaces its row; the table stays keyed |
| Users.UserService.FindByEmail | backend/src/main/java/com/sweetshop/service/UserService.java:49-53 | succeeds iff a stored user has the email, with that user; otherwise UserNotFoundException for the email |
| Users.UserService.FindById | backend/src/main/java/com/sweetshop/service/UserService.java:55-59 | succeeds iff a stored user has the id, with that user; otherwise UserNotFoundException for the id |
| Users.UserService.ValidatePassword | backend/src/main/java/com/sweetshop/service/UserService.java:61-63 | exactly the encoder's `matches(raw, stored)` verdict |
| Users.UserService.IsEmailAvailable | backend/src/main/java/com/sweetshop/service/UserService.java:91-93 | holds iff no stored user has the email, i.e. iff `findByEmail` fails |
| Users.UserService.RegisterUser | backend/src/main/java/com/sweetshop/service/UserService.java:29-47 | a taken email fails with UserAlreadyExistsException and a missing USER role fails, both saving nothing; success is exactly the case of a free email and an existing role, and stores an enabled user with the given email and names, the encoded password and the single USER role under the next id |
| Users.UserService.DisableUser | backend/src/main/java/com/sweetshop/service/UserService.java:79-83 | an unknown id fails and changes nothing; otherwise the stored user is saved with the flag cleared |
| Users.UserService.EnableUser | backend/src/main/java/com/sweetshop/service/UserService.java:85-89 | an unknown id fails and changes nothing; otherwise the stored user is saved with the flag set |
| Users.UserService.SetEnabled | backend/src/main/java/com/sweetshop/service/UserService.java:79-89 | find, set the flag, save: the outcome both operations above promise |
| Users.SetEnabledTouchesOnlyTheFlag | backend/src/main/java/com/sweetshop/service/UserService.java:79-89 | every other row is untouched and the target differs only in its enabled flag |
| CatalogEntities.Available | backend/src/main/java/com/sweetshop/entity/Sweet.java:104-106 | a quantity is available exactly when it is set and a sale of one unit would succeed on it |
| CatalogEntities.Decreased | backend/src/main/java/com/sweetshop/entity/Sweet.java:108-116 | a non-positive amount is refused first, then a null quantity, then an amount above the stock; success is exactly 0 < amount <= stock and takes exactly the amount off, leaving the stock non-negative |
| CatalogEntities.Increased | backend/src/main/java/com/sweetshop/entity/Sweet.java:118-123 | a non-positive amount is refused first, then a null quantity; success is exactly a positive amount on a present quantity and adds exactly the amount |
| CatalogEntities.IncreaseThenDecreaseRestores | backend/src/main/java/com/sweetshop/entity/Sweet.java:108-123 | restocking then selling the same amount restores the stock, and a successful sale is undone by restocking it |
| CatalogEntities.DecreaseKeepsStockNonNegative | backend/src/main/java/com/sweetshop/entity/Sweet.java:108-116 | a sale never takes a non-negative stock below zero, and leaves the sweet unavailable iff it sold the whole stock |
| CatalogEntities.Sweet.constructor | backend/src/main/java/com/sweetshop/entity/Sweet.java:67-73 | stores exactly the given fields, with no id yet |
| CatalogEntities.Sweet.IsAvailable | backend/src/main/java/com/sweetshop/entity/Sweet.java:104-106 | `isAvailable()` holds exactly when one unit can be sold: `decreaseQuantity(1)` would succeed |
| CatalogEntities.Sweet.Equals | backend/src/main/java/com/sweetshop/entity/Sweet.java:125-131 | only a non-null object can be equal, and two distinct objects are unequal while either has no id |
| CatalogEntities.Sweet.HashCode | backend/src/main/java/com/sweetshop/entity/Sweet.java:133-136 | the hash is the class constant, whatever the id |
| CatalogEntities.Sweet.DecreaseQuantity | backend/src/main/java/com/sweetshop/entity/Sweet.java:108-116 | succeeds iff `Decreased` does and then holds its result; on a refusal the quantity is unchanged |
| CatalogEntities.Sweet.IncreaseQuantity | backend/src/main/java/com/sweetshop/entity/Sweet.java:118-123 | succeeds iff `Increased` does and then holds its result; on a refusal the quantity is unchanged |
| CatalogEntities.SweetEqualsIsIdentityOrSavedId | backend/src/main/java/com/sweetshop/entity/Sweet.java:125-136 | equality is an equivalence, distinct unsaved objects are never equal, and the constant hash agrees with it |
| CatalogEntities.FirstEqualIndex | backend/src/main/java/com/sweetshop/entity/Category.java:83 | the first position whose entry the sweet equals, none iff no entry is equal |
| CatalogEntities.RemoveFirstEqual | backend/src/main/java/com/sweetshop/entity/Category.java:83 | `List.remove` drops exactly the first equal entry and keeps the rest in order, or changes nothing when none is equal |
| CatalogEntities.RemoveUnsavedAbsentIsNoOp | backend/src/main/java/com/sweetshop/entity/Category.java:83 | removing an unsaved sweet that is not in the list changes nothing, even if an entry has equal fields |
| CatalogEntities.RemoveDistinctEntry | backend/src/main/java/com/sweetshop/entity/Category.java:83 | in a list of pairwise unequal entries, removing an entry removes exactly that position |
| CatalogEntities.Category.constructor | backend/src/main/java/com/sweetshop/entity/Category.java:53-56 | stores the name and description, with no id and no sweets |
| CatalogEntities.Category.Equals | backend/src/main/java/com/sweetshop/entity/Category.java:87-93 | only a non-null object can be equal, and two distinct objects are unequal while either has no id |
| CatalogEntities.Category.HashCode | backend/src/main/java/com/sweetshop/entity/Category.java:95-98 | the hash is the class constant, whatever the id |
| CatalogEntities.Category.AddSweet | backend/src/main/java/com/sweetshop/entity/Category.java:77-80 | appends the sweet to the list and points the sweet at this category |
| CatalogEntities.Category.RemoveSweet | backend/src/main/java/com/sweetshop/entity/Category.java:82-85 | removes the first entry the sweet equals and sets the sweet's category to null |
| CatalogEntities.CategoryEqualsIsIdentityOrSavedId | backend/src/main/java/com/sweetshop/entity/Category.java:87-98 | equality is an equivalence, distinct unsaved objects are never equal, and the constant hash agrees with it |
| CatalogTables.SweetWithId | backend/src/main/java/com/sweetshop/service/SweetService.java:58 | finds a stored sweet with the id, and one is found iff some sweet has it |
| CatalogTables.CategoryWithId | backend/src/main/java/com/sweetshop/service/CategoryService.java:41 | finds a stored category with the id, and one is found iff some category has it |
| CatalogTables.ReplaceSweet | backend/src/main/java/com/sweetshop/service/SweetService.java:77 | `save` of a stored sweet replaces the row with its id and keeps every other row where it was |
| CatalogTables.ReplaceCategory | backend/src/main/java/com/sweetshop/service/CategoryService.java:63 | `save` of a stored category replaces the row with its id and keeps every other row where it was |
| CatalogTables.SweetIdFindsTheRow | backend/src/main/java/com/sweetshop/entity/Sweet.java:13-15 | with unique ids, looking up a stored sweet's id returns that sweet |
| CatalogTables.CategoryIdFindsTheRow | backend/src/main/java/com/sweetshop/entity/Category.java:16-18 | with unique ids, looking up a stored category's id returns that category |
| CatalogTables.ReplaceSweetKeepsIds | backend/src/main/java/com/sweetshop/service/SweetService.java:77 | saving a stored sweet keeps ids unique and the saved row is then what its id finds |
| CatalogTables.ReplaceSweetRestores | backend/src/main/java/com/sweetshop/service/SweetService.java:92-99 | saving a changed row and then the original gives the table back |
| CatalogTables.ReplaceCategoryKeepsIds | backend/src/main/java/com/sweetshop/service/CategoryService.java:63 | saving a stored category keeps ids unique and the saved row is in the table |
| CatalogStore.WithoutSweet | backend/src/main/java/com/sweetshop/service/SweetService.java:82 | the table keeps exactly the rows with another id |
| CatalogStore.WithoutCategory | backend/src/main/java/com/sweetshop/service/CategoryService.java:74 | the table keeps exactly the rows with another id |
| CatalogStore.ReplacedSweetsStayValid | backend/src/main/java/com/sweetshop/entity/Sweet.java:26-51 | saving a stored sweet with a non-negative quantity, a positive price and a stored category keeps the sweets table consistent |
| CatalogStore.RenameKeepsNamesUnique | backend/src/main/java/com/sweetshop/service/CategoryService.java:55-63 | renaming a category to a name no other category holds keeps names unique |
| CatalogStore.ReplaceKeepsCategoryReferences | backend/src/main/java/com/sweetshop/entity/Sweet.java:48-51 | saving a stored category keeps every sweet's category resolvable |
| CatalogStore.Catalog.InsertSweet | backend/src/main/java/com/sweetshop/service/SweetService.java:43 | a valid new sweet is appended under the next id and the catalog stays consistent |
| CatalogStore.Catalog.SaveSweet | backend/src/main/java/com/sweetshop/service/SweetService.java:77 | a valid stored sweet replaces its row and the catalog stays consistent |
| CatalogStore.Catalog.DeleteSweet | backend/src/main/java/com/sweetshop/service/SweetService.java:82 | the sweet's row is removed and the catalog stays consistent |
| CatalogStore.Catalog.InsertCategory | backend/src/main/java/com/sweetshop/service/CategoryService.java:31 | a category with a free name is appended under the next id and the catalog stays consistent |
| CatalogStore.Catalog.SaveCategory | backend/src/main/java/com/sweetshop/service/CategoryService.java:63 | a stored category renamed to a free name replaces its row and the catalog stays consistent |
| CatalogStore.Catalog.DeleteCategory | backend/src/main/java/com/sweetshop/service/CategoryService.java:74 | a category no sweet points at is removed and every sweet's category stays resolvable |
| SweetQueries.LowerChar | backend/src/main/java/com/sweetshop/repository/SweetRepository.java:22 | an ASCII capital maps to its small letter and every other character to itself |
| SweetQueries.LowerAscii | backend/src/main/java/com/sweetshop/repository/SweetRepository.java:22 | lowers every character and keeps the length |
| SweetQueries.LowerAsciiIdempotent | backend/src/main/java/com/sweetshop/repository/SweetRepository.java:22 | lowering twice is lowering once |
| SweetQueries.ContainsAtSomePosition | backend/src/main/java/com/sweetshop/repository/SweetRepository.java:27 | `LIKE %p%` holds iff p occurs at some position of the text |
| SweetQueries.FindByCategory | backend/src/main/java/com/sweetshop/repository/SweetRepository.java:16 | exactly the sweets of the category |
| SweetQueries.FindByQuantityGreaterThan | backend/src/main/java/com/sweetshop/repository/SweetRepository.java:18 | exactly the sweets with quantity above the bound |
| SweetQueries.FindByPriceBetween | backend/src/main/java/com/sweetshop/repository/SweetRepository.java:20 | exactly the sweets with lo <= price <= hi |
| SweetQueries.FindByNameContainingIgnoreCase | backend/src/main/java/com/sweetshop/repository/SweetRepository.java:22 | exactly the sweets whose name contains the text, ignoring case |
| SweetQueries.FindByCategoryName | backend/src/main/java/com/sweetshop/repository/SweetRepository.java:24-25 | exactly the sweets whose category row carries the name |
| SweetQueries.SearchByNameOrDescription | backend/src/main/java/com/sweetshop/repository/SweetRepository.java:27-28 | exactly the sweets whose name contains the first text or whose description contains the second |
| SweetQueries.FindByPriceRangeAndCategory | backend/src/main/java/com/sweetshop/repository/SweetRepository.java:30-35 | exactly the sweets in the inclusive price range whose category carries the name |
| SweetQueries.FindOutOfStockSweets | backend/src/main/java/com/sweetshop/repository/SweetRepository.java:43-44 | exactly the sweets with quantity 0 |
| SweetQueries.CountByCategory | backend/src/main/java/com/sweetshop/repository/SweetRepository.java:52-53 | the number of table positions whose sweet is in the category; hence at most the table size, and zero iff no sweet is in the category |
| SweetQueries.SweetOrdersAreTotalPreorders | backend/src/main/java/com/sweetshop/repository/SweetRepository.java:37-50 | the four ORDER BY keys are total preorders |
| SweetQueries.FindLowStockSweets | backend/src/main/java/com/sweetshop/repository/SweetRepository.java:40-41 | exactly the sweets with 0 < quantity <= threshold, a permutation of that selection, in ascending quantity |
| Seqs.TopOfSortedPage | backend/src/main/java/com/sweetshop/repository/SweetRepository.java:37-50 | whatever the first page of a sorted sequence leaves out ranks no earlier than anything on the page |
| Seqs.FilterCountsPositions | backend/src/main/java/com/sweetshop/repository/SweetRepository.java:52-53 | a filter's length is the number of positions whose element satisfies the predicate, which is what `COUNT` counts |
| SweetQueries.FindTopSellingSweets | backend/src/main/java/com/sweetshop/repository/SweetRepository.java:37-38 | a page of min(size, table) sweets taken from the table, by descending quantity (stock left, not sales), and no sweet left out has a larger quantity than one on the page |
| SweetQueries.FindNewestSweets | backend/src/main/java/com/sweetshop/repository/SweetRepository.java:46-47 | a page of min(size, table) sweets from the table, newest first, and no sweet left out is newer than one on the page |
| SweetQueries.FindCheapestSweets | backend/src/main/java/com/sweetshop/repository/SweetRepository.java:49-50 | a page of min(size, table) sweets from the table, cheapest first, and no sweet left out is cheaper than one on the page |
| SweetQueries.InStockMeansAvailable | backend/src/main/java/com/sweetshop/repository/SweetRepository.java:18 | `findByQuantityGreaterThan(0)` returns a sweet iff `isAvailable` holds of it |
| SweetQueries.StockSplitsTheTable | backend/src/main/java/com/sweetshop/repository/SweetRepository.java:43-44 | with no negative stock, out-of-stock and in-stock sweets add up to the table |
| SweetQueries.NameSearchIgnoresCase | backend/src/main/java/com/sweetshop/repository/SweetRepository.java:22 | texts differing only in ASCII case find the same sweets, and the empty text finds every sweet |
| SweetQueries.CategoryNameJoinAgreesWithId | backend/src/main/java/com/sweetshop/repository/SweetRepository.java:24-25 | with unique category names, the join on a name selects what the lookup by that category's id selects |
| CategoryQueries.LexLeTotal | backend/src/main/java/com/sweetshop/repository/CategoryRepository.java:20 | any two names are ordered one way or the other |
| CategoryQueries.LexLeTransitive | backend/src/main/java/com/sweetshop/repository/CategoryRepository.java:20 | the name order is transitive |
| CategoryQueries.LexLeAntisymmetric | backend/src/main/java/com/sweetshop/repository/CategoryRepository.java:20 | names ordered both ways are equal |
| CategoryQueries.NameAscendingIsTotalPreorder | backend/src/main/java/com/sweetshop/repository/CategoryRepository.java:20 | ordering categories by name is a total preorder |
| CategoryQueries.FindByName | backend/src/main/java/com/sweetshop/repository/CategoryRepository.java:13 | finds a stored category named exactly so, and one is found iff such a category exists |
| CategoryQueries.ExistsByName | backend/src/main/java/com/sweetshop/repository/CategoryRepository.java:15 | holds iff some category has the name, i.e. iff `findByName` finds one |
| CategoryQueries.UniqueNameFindsTheRow | backend/src/main/java/com/sweetshop/entity/Category.java:20 | with the name column unique, the lookup of a stored category's name returns it |
| CategoryQueries.FindCategoriesWithSweets | backend/src/main/java/com/sweetshop/repository/CategoryRepository.java:17-18 | exactly the categories with a sweet in stock, each once |
| CategoryQueries.FindAllOrderByName | backend/src/main/java/com/sweetshop/repository/CategoryRepository.java:20-21 | a permutation of all categories sorted by name ascending |
| CategoryQueries.ListingKeepsNamesUnique | backend/src/main/java/com/sweetshop/repository/CategoryRepository.java:20-21 | with unique names the listing's names strictly increase |
| CategoryServices.FindCategory | backend/src/main/java/com/sweetshop/service/CategoryService.java:39-43 | the category with the id, or CategoryNotFoundException iff none has it |
| CategoryServices.FindCategoryByName | backend/src/main/java/com/sweetshop/service/CategoryService.java:45-49 | the category with the name, or CategoryNotFoundException iff none has it |
| CategoryServices.IsCategoryNameAvailable | backend/src/main/java/com/sweetshop/service/CategoryService.java:82-85 | holds iff no category has the name |
| CategoryServices.HasSweets | backend/src/main/java/com/sweetshop/service/CategoryService.java:70-72 | holds exactly when the category's sweets list, the rows pointing at it, is not empty |
| CategoryServices.Renamed | backend/src/main/java/com/sweetshop/service/CategoryService.java:51-64 | refused with CategoryAlreadyExistsException iff the name changes to one already stored; otherwise only the name and description change |
| CategoryServices.RenameConflictIsAnotherCategory | backend/src/main/java/com/sweetshop/service/CategoryService.java:54-58 | in a keyed table a rename is refused iff another category holds the new name, so keeping one's own name never conflicts |
| CategoryServices.CategoryService.CreateCategory | backend/src/main/java/com/sweetshop/service/CategoryService.java:22-32 | succeeds iff the name is free, storing exactly that name and description under the next id, which `findByName` and `findById` then find; a taken name fails and saves nothing |
| CategoryServices.CategoryService.UpdateCategory | backend/src/main/java/com/sweetshop/service/CategoryService.java:51-64 | an unknown id fails with CategoryNotFoundException; otherwise the outcome is `Renamed` and a success replaces the row; names stay unique |
| CategoryServices.CategoryService.DeleteCategory | backend/src/main/java/com/sweetshop/service/CategoryService.java:66-75 | an unknown id fails; a category with sweets fails with the IllegalStateException; otherwise it is removed and no longer found |
| SweetServices.FindSweet | backend/src/main/java/com/sweetshop/service/SweetService.java:56-60 | the sweet with the id, or SweetNotFoundException iff none has it |
| SweetServices.Purchased | backend/src/main/java/com/sweetshop/service/SweetService.java:85-94 | a request above the stock fails with InsufficientStockException carrying both numbers; a non-positive request passes that check and is refused by the entity; success is exactly 0 < request <= stock and takes exactly the request off |
| SweetServices.Restocked | backend/src/main/java/com/sweetshop/service/SweetService.java:96-100 | a non-positive amount is refused; otherwise exactly the amount is added |
| SweetServices.PurchaseUndoneByRestock | backend/src/main/java/com/sweetshop/service/SweetService.java:85-100 | restocking what a sale took restores the sweet and the whole table |
| SweetServices.PurchaseKeepsStockNonNegative | backend/src/main/java/com/sweetshop/service/SweetService.java:88-93 | a sale never leaves negative stock, and leaves none iff it sold all |
| SweetServices.Updated | backend/src/main/java/com/sweetshop/service/SweetService.java:62-78 | a named category other than the sweet's own must exist; every field of the body replaces the sweet's, the category only when given; id and creation time stay; a row breaking the entity constraints is refused |
| SweetServices.UpdateIsIdempotent | backend/src/main/java/com/sweetshop/service/SweetService.java:62-78 | repeating an update stores the same row |
| SweetServices.SearchBase | backend/src/main/java/com/sweetshop/service/SweetService.java:106-114 | the name matches for a non-blank text, else the category's sweets (failing iff that category is missing), else every sweet |
| SweetServices.PriceFiltered | backend/src/main/java/com/sweetshop/service/SweetService.java:117-134 | keeps exactly the sweets within each given bound, both inclusive, in order |
| SweetServices.AvailabilityFiltered | backend/src/main/java/com/sweetshop/service/SweetService.java:137-141 | with the flag, keeps exactly the available sweets, in order |
| SweetServices.SearchSweets | backend/src/main/java/com/sweetshop/service/SweetService.java:102-144 | fails iff the search falls back to a missing category; otherwise returns exactly the base sweets within the price bounds and, when asked, in stock, as a subsequence of the base |
| SweetServices.PriceStageAgreesWithPriceBetween | backend/src/main/java/com/sweetshop/service/SweetService.java:117-134 | with both bounds, the price stage equals `findByPriceBetween` |
| SweetServices.DefaultSearchListsAvailableSweets | backend/src/main/java/com/sweetshop/dto/SweetSearchCriteria.java:11 | an empty search with the default flag returns `findByQuantityGreaterThan(0)` |
| SweetServices.BlankSearchTextIsIgnored | backend/src/main/java/com/sweetshop/service/SweetService.java:106 | a blank search text gives the same result as no text |
| SweetServices.FindSweetsByCategory | backend/src/main/java/com/sweetshop/service/SweetService.java:146-151 | the category's sweets, or CategoryNotFoundException iff it is missing |
| SweetServices.FindTopSellingSweets | backend/src/main/java/com/sweetshop/service/SweetService.java:153-156 | a limit below one is refused by the page request; otherwise a page of min(limit, table) sweets from the table by descending stock, and no sweet left out has a larger stock than one on the page |
| SweetServices.SweetService.CreateSweet | backend/src/main/java/com/sweetshop/service/SweetService.java:31-44 | a null category id and a missing category fail; success is exactly a stored category with valid stock and price, appending the row built from the body under the next id, which `findById` then finds; failures change nothing |
| SweetServices.SweetService.UpdateSweet | backend/src/main/java/com/sweetshop/service/SweetService.java:62-78 | an unknown id fails with SweetNotFoundException; otherwise the outcome is `Updated` and a success replaces the row |
| SweetServices.SweetService.DeleteSweet | backend/src/main/java/com/sweetshop/service/SweetService.java:80-83 | an unknown id fails and changes nothing; otherwise the row is removed; either way the id is no longer found |
| SweetServices.SweetService.PurchaseSweet | backend/src/main/java/com/sweetshop/service/SweetService.java:85-94 | an unknown id fails; otherwise the outcome is `Purchased`, a success replaces the row and a failure changes nothing |
| SweetServices.SweetService.RestockSweet | backend/src/main/java/com/sweetshop/service/SweetService.java:96-100 | an unknown id fails; otherwise the outcome is `Restocked`, a success replaces the row and a failure changes nothing |
| Cart.TotalItems | frontend/sweetshop/src/contexts/CartContext.js:54-56 | the sum is zero for the empty cart and non-negative when every quantity is |
| Cart.Bumped | frontend/sweetshop/src/contexts/CartContext.js:20-24 | entries with the id get the amount added; all others and the length stay |
| Cart.Reassigned | frontend/sweetshop/src/contexts/CartContext.js:40-42 | entries with the id get the new quantity; all others and the length stay |
| Cart.AddToCart | frontend/sweetshop/src/contexts/CartContext.js:16-28 | a sweet already present gets the amount added to its entry; a new one is appended at the end; the amount defaults to 1; the sweet is in the cart afterwards |
| Cart.RemoveFromCart | frontend/sweetshop/src/contexts/CartContext.js:30-32 | keeps exactly the entries with other ids, in order, and none with the id |
| Cart.UpdateQuantity | frontend/sweetshop/src/contexts/CartContext.js:34-44 | a quantity <= 0 is exactly `removeFromCart`; otherwise only the matching entries' quantities change |
| Cart.ClearCart | frontend/sweetshop/src/contexts/CartContext.js:46-48 | the empty cart, with total zero |
| Cart.UpdateAbsentIsNoOp | frontend/sweetshop/src/contexts/CartContext.js:39-43 | setting the quantity of an absent sweet changes nothing |
| Cart.CartKeepsIdsUnique | frontend/sweetshop/src/contexts/CartContext.js:16-48 | add, remove, update and clear all keep one entry per id |
| Cart.RemoveKeepsIdsUnique | frontend/sweetshop/src/contexts/CartContext.js:30-32 | removal keeps ids unique |
| Cart.BumpedTotal | frontend/sweetshop/src/contexts/CartContext.js:20-24 | bumping the single entry of an id grows the total by the amount, and not at all when absent |
| Cart.AppendTotal | frontend/sweetshop/src/contexts/CartContext.js:26 | appending an entry grows the total by its quantity |
| Cart.AddToCartGrowsTotal | frontend/sweetshop/src/contexts/CartContext.js:16-28 | in a cart with unique ids, `addToCart(s, q)` grows `getTotalItems` by exactly q |
| Cart.RemoveUndoesAdd | frontend/sweetshop/src/contexts/CartContext.js:16-32 | removing a sweet after adding it equals removing it straight away |
| Cart.RemoveIgnoresBump | frontend/sweetshop/src/contexts/CartContext.js:20-32 | removing an id after bumping it equals removing it straight away |

## Left out

- JwtUtil is not part of this model. Minting, signing and verifying JWTs (RFC 7519) are opaque functions. The refresh value is only required to be fresh, i.e. not already stored.
- BCrypt hashing (`PasswordEncoder.encode`/`matches`) is foreign cryptography and is modelled as opaque functions.
- Concurrency and transactions: each service call is one atomic step. Races between two refreshes or two purchases are not modelled, and nothing is claimed about interleavings. `flush` has no effect in a model without a write-behind cache.
- JPA lifecycle timestamps (`@PrePersist`/`@PreUpdate`): `createdAt`/`updatedAt` of tokens and categories are not modelled. A sweet's `createdAt` is the `now` passed to `CreateSweet`, because `findNewestSweets` orders by it.
- Bean validation: only the constraints that decide an outcome here are modelled, namely the sweet's `@Min(0)` quantity and positive `@DecimalMin` price, refused as `ConstraintViolation` when a row is written. `@NotBlank`, `@Size` and `@Digits` are left out. So is the `@Min(1)` of the purchase request, which a controller checks before the service runs.
- CatalogEntities.Increased: Java `int` overflow in `increaseQuantity` is not modelled, because quantities are unbounded integers. A restock that would pass 2^31 - 1 wraps in the source but not here.
- `RefreshToken.toString` and `Sweet.toString`: only the ten-character token excerpt is modelled. The rest is string formatting.
- JwtFilter.Authorities: a user's roles are a `Set<Role>` in the source, whose iteration order Java leaves unspecified. The model keeps them as a sequence, so the order of the authorities, and the position-by-position comparison in `AuthoritiesRecoverRoleNames`, rest on an order the source does not promise. Which authorities there are does not depend on it.
- `findAllUsers`, `findUsersByRole` and `updateUser` are pass-throughs to a repository whose source is not part of this model.
- `findAllSweets`, `findAvailableSweets`, `findLowStockSweets`, `findOutOfStockSweets`, `findAllCategories` and `findCategoriesWithSweets` of the services return the repository query unchanged. They are modelled by the query functions (`FindByQuantityGreaterThan`, `FindLowStockSweets`, `FindOutOfStockSweets`, `FindAllOrderByName`, `FindCategoriesWithSweets`).
- SweetQueries.FindByNameContainingIgnoreCase: case is folded for ASCII letters only. The database's Unicode case folding and collation are not modelled.
- SweetQueries.SearchByNameOrDescription: `%` and `_` inside the search text are taken literally, not as `LIKE` wildcards.
- CategoryQueries.FindAllOrderByName: names are ordered by character code (a binary collation), not by the database's collation.
- SweetQueries.FindTopSellingSweets: rows with equal sort keys may come in any order in the source, so the model fixes one order among them (insertion order of `Sort`) but promises only sortedness, the page size, being drawn from the table and that nothing left out outranks the page. Which of several tied rows reach a page is therefore not pinned down. The same holds for `FindNewestSweets`, `FindCheapestSweets` and `FindLowStockSweets`.
- Null names and descriptions, and null prices in search results, are not modelled: string fields are never null here. The nullable fields that change an outcome are modelled as `Option`: the sweet's quantity on a hand-built object, the DTO's category id, and the search criteria.
- `getTotalPrice` in CartContext.js uses floating-point arithmetic and is left out.
- Logging calls of the filter are left out, and so are the request details attached to the authentication (`WebAuthenticationDetailsSource`).
- Routing, controllers, exception handlers and the UI are outside this model.
