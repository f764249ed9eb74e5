# ECommerceInventory core, modelled in Dafny

This project models the service layer of the ECommerceInventory web API and proves its behaviour. The API is an ASP.NET Core application whose data is users, products and categories. The model covers:

- **Authentication** (`AuthService`): registration, login and refresh-token rotation. Each call looks a user up, then issues an access token and a new refresh token. The refresh token and its expiry are written back into the user's record.
- **Products** (`ProductService`): create, a filtered and paginated listing, lookup by id, partial update, delete, and a case-insensitive keyword search.
- **Categories** (`CategoryService`): create, listing and lookup with a product count, partial update, and a delete that refuses categories that still have products linked to them.
- **Product image uploads** (`ProductsController`): the checks on an uploaded file, the relative path stored for it, and the path Delete derives from a stored path.
- **Error responses** (`GlobalExceptionHandlerMiddleware`): the mapping from an exception's message to an HTTP status and a response body.

The database is a class, `Repository.UnitOfWork`, with one sequence field per table. The three services are classes that hold it and modify it.

Authentication is written twice. `AuthSpec` gives each operation as a function from the user table before the call to the response and the table after it, and the lemmas are proved about those functions. `Auth.AuthService` implements the same operations as methods that update the store in place, and each method is proved equal to its function.

The product and category queries are functions. Create, Update and Delete are methods, and each states the new contents of the store.

Several things are parameters to the model rather than computed inside it:

- the password hasher;
- the clock (`now`, in 100 ns ticks);
- `Guid.NewGuid()` (the new record id, or the text of the Guid);
- the 64 random bytes of a refresh token (`drawn`, their Base64 text);
- the platform's directory separator.

Files:

- `wrappers.dfy`: the `Option`, `Result` and `Outcome` types.
- `text.dfy`: the .NET string operations used.
- `entities.dfy`: the stored records and the catalogue errors.
- `repository.dfy`: the store and the LINQ query operators.
- `auth_spec.dfy` and `auth_service.dfy`: authentication.
- `products.dfy`: products.
- `categories.dfy`: categories.
- `uploads.dfy`: the controller's image handling.
- `error_handling.dfy`: the exception middleware.

## Model

| member | source | states |
|---|---|---|
| Repository.FirstIndex | Core/Repositories/IRepository.cs:8 | The lookup finds the first record that satisfies the predicate. It finds nothing exactly when no record does. |
| Repository.Where | Application/Services/ProductService.cs:54-56 | Every record in the result is stored and satisfies the predicate. Every stored record that satisfies it is in the result. |
| Repository.WhereAppend | Application/Services/ProductService.cs:54-56 | Filtering distributes over concatenation, so it keeps the store order. |
| Repository.Skip | Application/Services/ProductService.cs:58 | `Skip` with a count of zero or less skips nothing. With a count inside the input it drops that many records. With a count at or past the end it gives the empty sequence. |
| Repository.Take | Application/Services/ProductService.cs:58 | `Take` with a count of zero or less takes nothing. With a count inside the input it gives that prefix. With a count at or past the end it gives the whole input. |
| Repository.RemoveAt | Application/Services/ProductService.cs:140-141 | Deleting a record leaves all the others in their order and shortens the table by one. |
| Repository.UnitOfWork.constructor | Core/Repositories/IUnitOfWork.cs:10-16 | The unit of work holds exactly the given users, products and categories, one sequence per repository. |
| Text.TrimStart | API/Controllers/ProductsController.cs:173 | `TrimStart('/')` gives a suffix of its input. No '/' is left at its head. Every dropped character was a '/'. |
| Text.ToLower | Application/Services/ProductService.cs:154-160 | Lower-casing keeps the length and maps each character on its own, changing only the ASCII capitals. The upload check applies it to the extension at ProductsController.cs line 35. |
| Text.ReplaceChar | API/Controllers/ProductsController.cs:173 | `Replace("/", separator)` keeps the length and puts the separator exactly where the input had '/'. Every other character is kept. |
| Text.NotContainsWithoutChar | API/Middleware/GlobalExceptionHandlerMiddleware.cs:34-36 | `t` does not occur in `s` when one of `t`'s characters is absent from `s`. |
| AuthSpec.GenerateTokens | Application/Services/AuthService.cs:83-114 | Issuance always succeeds, keeps the number of users, and leaves every other user's record as it was. `AuthSpec.GenerateTokensRotates` states the rest. |
| AuthSpec.Register | Application/Services/AuthService.cs:24-49 | Register fails exactly when some stored user has the email. The failure is "User exists" with the store unchanged. A success appends one user and keeps the stored ones. `AuthSpec.RegisterFreshEmail` gives the appended user. |
| AuthSpec.Login | Application/Services/AuthService.cs:51-65 | Login never adds or removes a user. Every failure is "Invalid credentials" with the store unchanged. A success implies a stored user with that email whose hash the password verifies against. `AuthSpec.LoginOutcome` gives the converse. |
| AuthSpec.Refresh | Application/Services/AuthService.cs:67-81 | Refresh never adds or removes a user. It fails exactly when no user holds the presented token unexpired. The failure is "Invalid refresh token" with the store unchanged. `AuthSpec.RefreshOutcome` describes the success. |
| AuthSpec.GenerateTokensRotates | Application/Services/AuthService.cs:83-114 | Issuing tokens has four parts. (1) The new refresh token is returned. (2) It is stored with expiry now plus the refresh lifetime, in that user's record only. (3) The record keeps its id, name, email and hash. (4) The access token carries the user's id and email, the issuer and audience, expiry now plus the access lifetime, and the signing key. |
| AuthSpec.GenerateTokensKeepsInvariants | Application/Services/AuthService.cs:104-107 | Token issuance keeps emails unique. It keeps refresh tokens unique when no user already holds the new token. |
| AuthSpec.RegisterExistingEmail | Application/Services/AuthService.cs:28-29 | Registering an email that a stored user already has fails with "User exists" and leaves the store unchanged. |
| AuthSpec.RegisterFreshEmail | Application/Services/AuthService.cs:28-41 | Registering a new email appends exactly one user. That user has the given name and email, the hash of the password, and the returned refresh token with its expiry. The call returns that user's token pair and keeps emails unique. |
| AuthSpec.LoginOutcome | Application/Services/AuthService.cs:55-58 | Every failed login is the same "Invalid credentials" and leaves the store unchanged. An unknown email and a wrong password fail alike. With unique emails, login succeeds exactly when the password verifies against the hash of the user with that email, and it then issues tokens for that user. |
| AuthSpec.RegisterThenLogin | Application/Services/AuthService.cs:24-58 | Given a hasher under which every password verifies against its own hash, a user who has just registered can log in with the same email and password. |
| AuthSpec.RefreshOutcome | Application/Services/AuthService.cs:71-74 | Refresh succeeds exactly when some user holds the presented token and it has not expired, and it then rotates that user's token. Otherwise it fails with "Invalid refresh token" and leaves the store unchanged. |
| AuthSpec.RefreshRotatesOut | Application/Services/AuthService.cs:71-107 | After a successful refresh that drew a different token, nobody holds the presented token. Presenting it again fails and changes nothing. |
| AuthSpec.RegisterRefreshScenario | Application/Services/AuthService.cs:24-107 | Register returns T1. Refresh(T1) returns a different T2. A second Refresh(T1) fails with "Invalid refresh token". Refresh(T2) succeeds while T2 is unexpired. |
| Auth.AuthService.constructor | Application/Services/AuthService.cs:18-22 | The service holds the store, the JWT configuration and the hasher. Given a store whose emails are unique, it starts in the state Register, Login and Refresh require. |
| Auth.AuthService.GenerateTokens | Application/Services/AuthService.cs:83-114 | The in-place issuance returns the tokens and leaves the user table exactly as `AuthSpec.GenerateTokens` says. The products and categories are untouched. |
| Auth.AuthService.Register | Application/Services/AuthService.cs:24-49 | The response and the new user table are those of `AuthSpec.Register` on the old table. Email uniqueness is preserved and the products and categories are untouched. |
| Auth.AuthService.Login | Application/Services/AuthService.cs:51-65 | The response and the new user table are those of `AuthSpec.Login` on the old table. Email uniqueness is preserved and the products and categories are untouched. |
| Auth.AuthService.Refresh | Application/Services/AuthService.cs:67-81 | The response and the new user table are those of `AuthSpec.Refresh` on the old table. Email uniqueness is preserved and the products and categories are untouched. |
| Products.Wrap32 | Application/Services/ProductService.cs:58 | C# unchecked `int` arithmetic: the result is the input modulo 2^32, and an input that fits is unchanged. |
| Products.NormalizeImagePath | Application/Services/ProductService.cs:29-31 | A null or whitespace-only image path is stored as the empty string. Any other path is stored as given. |
| Products.CategoryName | Application/Services/ProductService.cs:68 | A product's category name is the name of the stored category with its id, or the empty string when there is none. |
| Products.ToDtos | Application/Services/ProductService.cs:60-70 | The projection keeps one DTO per product, in order. |
| Products.GetById | Application/Services/ProductService.cs:79-100 | The lookup returns null exactly when no stored product has the id. Otherwise it returns the projection of a product with that id. |
| Products.ApplyUpdate | Application/Services/ProductService.cs:116-121 | The overwrite never changes the id or the creation time. `Products.ApplyUpdateFields` gives every other field. |
| Products.ApplyUpdateFields | Application/Services/ProductService.cs:116-121 | Update stores each field that was supplied and keeps each field that was absent. The image path is replaced only when one is given. The id and creation time never change. |
| Products.ApplyUpdateIdempotent | Application/Services/ProductService.cs:116-121 | Applying the same update twice is the same as applying it once. An update with every field absent changes nothing. |
| Products.PaginateIsSlice | Application/Services/ProductService.cs:58 | A page is always a contiguous slice of the filtered products. |
| Products.GetAll | Application/Services/ProductService.cs:46-77 | For limit ≥ 0, a page never holds more than `limit` items, for every page number including those where `(page - 1) * limit` overflows. It never holds more items than are stored. `Products.GetAllMatchesFilters` and `Products.GetAllPage` say which items they are. |
| Products.GetAllMatchesFilters | Application/Services/ProductService.cs:46-70 | Every product GetAll returns is a stored product that passes each filter supplied: the category, the minimum price and the maximum price. |
| Products.PageOffsetExact | Application/Services/ProductService.cs:58 | When `(page - 1) * limit` does not overflow, the computed offset is the mathematical product. |
| Products.PageOffset | Application/Services/ProductService.cs:58 | The offset is `(page - 1) * limit` modulo 2^32, as unchecked C# `int` arithmetic computes it. |
| Products.PaginateAt | Application/Services/ProductService.cs:58 | With a non-negative offset, a page is the slice from `offset` to `offset + limit`, clipped to the input. |
| Products.GetAllPage | Application/Services/ProductService.cs:46-70 | This holds for page ≥ 1, limit ≥ 0 and no overflow. GetAll returns exactly the projected slice of the filtered products starting at `(page - 1) * limit`, so at most `limit` items. |
| Products.LastPageWrapsToFirst | Application/Services/ProductService.cs:58 | As written, page 2147483647 with limit 10 overflows to offset -20. Under LINQ-to-objects `Skip` that offset skips nothing, so the first page comes back. The PostgreSQL provider configured at API/Program.cs lines 68-69 rejects a negative OFFSET, so the deployed request ends in a 500 instead. |
| Products.Search | Application/Services/ProductService.cs:150-181 | Search never returns more items than are stored. `Products.SearchExact` says which items they are. |
| Products.SearchExact | Application/Services/ProductService.cs:150-174 | Search returns exactly the projections of the stored products whose lower-cased name or description contains the lower-cased keyword. It returns no others. |
| Products.ProductService.constructor | Application/Services/ProductService.cs:13-16 | The service holds the unit of work it is given. |
| Products.ProductService.Create | Application/Services/ProductService.cs:18-37 | Create appends one product copied from the DTO, with the normalised image path, and returns its projection. Users and categories are untouched. |
| Products.ProductService.Update | Application/Services/ProductService.cs:109-124 | With an unknown id, Update fails with "Product not found" and changes nothing. Otherwise it replaces that product with `ApplyUpdate` of it and changes nothing else. |
| Products.ProductService.Delete | Application/Services/ProductService.cs:133-141 | With an unknown id, Delete fails with "Product not found" and changes nothing. Otherwise it removes exactly that product. |
| Categories.CountLinked | Application/Services/CategoryService.cs:59 | The product count is at most the number of products. It is zero exactly when no stored product links to the category. |
| Categories.CountLinkedIsNavigationSize | Application/Services/CategoryService.cs:59 | The count equals the size of the category's `Products` navigation. |
| Categories.GetAll | Application/Services/CategoryService.cs:45-60 | GetAll returns one DTO per stored category, in store order. |
| Categories.GetById | Application/Services/CategoryService.cs:69-86 | The lookup returns null exactly when no stored category has the id. Otherwise it returns that category's projection. |
| Categories.ProductCountIsLinkedCount | Application/Services/CategoryService.cs:54-86 | The reported ProductCount, from both GetAll and GetById, is the number of linked products. |
| Categories.CreatedCountAgrees | Application/Services/CategoryService.cs:30-36 | The count of 0 that Create reports agrees with a later GetById whenever no stored product already points at the new id. |
| Categories.ApplyUpdate | Application/Services/CategoryService.cs:102-103 | The overwrite keeps the id. It stores the name and the description when they are supplied and keeps them otherwise. |
| Categories.CategoryService.constructor | Application/Services/CategoryService.cs:12-15 | The service holds the unit of work it is given. |
| Categories.CategoryService.Create | Application/Services/CategoryService.cs:17-36 | Create appends one category with the DTO's name and description and reports it with ProductCount 0. |
| Categories.CategoryService.Update | Application/Services/CategoryService.cs:95-106 | With an unknown id, Update fails with "Category not found" and changes nothing. Otherwise it overwrites exactly the name and description supplied. |
| Categories.CategoryService.Delete | Application/Services/CategoryService.cs:116-128 | With an unknown id, Delete fails with "Category not found". With linked products it fails with "Category has linked products" and the category stays. Otherwise it removes exactly that category. |
| Uploads.GetExtension | API/Controllers/ProductsController.cs:35 | The extension is either empty or a suffix of the name. A non-empty extension starts with '.', is longer than the '.', and contains no further '.' and no directory separator. |
| Uploads.ExtensionBeforeFinds | API/Controllers/ProductsController.cs:35 | The backward scan stops at the last '.' when only plain characters follow it. |
| Uploads.ExtensionOfSuffix | API/Controllers/ProductsController.cs:35 | The extension is the suffix from a '.' that is not the last character and is followed only by characters that are neither '.' nor a separator. |
| Uploads.CheckImageOrder | API/Controllers/ProductsController.cs:34-47 | An upload is accepted exactly when three checks pass: its lower-cased extension is on the allowlist, its content type starts with "image/", and it is at most 2 MiB. A refused upload gets the message of the first check that fails. The checks run in that order. Update, at lines 119-132, runs the same checks with the same messages, through the same `CheckImage`. |
| Uploads.CheckImage | API/Controllers/ProductsController.cs:34-47 | An accepted upload's extension is on the allowlist. A refusal carries one of the three BadRequest messages. Update uses the same function for lines 119-132. `Uploads.CheckImageOrder` gives the exact conditions. |
| Uploads.UploadedImagePath | API/Controllers/ProductsController.cs:29-64 | The image path handed to the service is null exactly when no file was uploaded. `Uploads.AcceptedPathHasAllowedExtension` gives the path of an accepted upload. |
| Uploads.SizeBoundInclusive | API/Controllers/ProductsController.cs:45-47 | A file of exactly 2 MiB is accepted. One byte more is refused with the size message. |
| Uploads.UpperCaseExtensionAccepted | API/Controllers/ProductsController.cs:34-38 | "photo.PNG" sent as image/png is accepted with the extension ".png". |
| Uploads.TrailingDotRefused | API/Controllers/ProductsController.cs:35-38 | A name ending in '.' has no extension and is refused. |
| Uploads.AllowedExtensionShape | API/Controllers/ProductsController.cs:34 | Every allowlisted extension is a '.' followed by plain characters. |
| Uploads.AcceptedPathHasAllowedExtension | API/Controllers/ProductsController.cs:55-64 | An accepted upload is stored as "/images/" + Guid + an allowlisted extension. That path's own extension is the accepted one. |
| Uploads.UploadedPathStoredVerbatim | API/Controllers/ProductsController.cs:64-67 | The relative path of an accepted upload is never whitespace, so Create stores it unchanged. |
| Uploads.NoImageKeepsStoredPath | API/Controllers/ProductsController.cs:114-150 | Without an upload the image path stays null, so Update keeps the stored image path. |
| Uploads.StoredToFilePathShape | API/Controllers/ProductsController.cs:173 | The mapped path has the length of the trimmed stored path and no leading '/'. It has the separator exactly where the trimmed path had '/'. |
| Uploads.StoredToFilePath | API/Controllers/ProductsController.cs:173 | The mapped path is no longer than the stored path and does not start with '/'. `Uploads.StoredToFilePathShape` gives it character by character. |
| Uploads.FileToDelete | API/Controllers/ProductsController.cs:171-173 | Delete removes no file exactly when the stored image path is empty. |
| Uploads.DeleteFindsUploadedFile | API/Controllers/ProductsController.cs:170-176 | For a path that Create or Update stored, Delete removes "images", then the separator, then the unique file name. |
| ErrorHandling.HandleException | API/Middleware/GlobalExceptionHandlerMiddleware.cs:30-38 | The status is one of 404, 401, 409 and 500. It is 404 exactly when the message contains "not found". It is 401 exactly when the message lacks "not found" and contains "Invalid credentials" or "Invalid refresh token". It is 409 exactly when the message contains "linked products" and none of the earlier patterns. The body is the message itself unless the status is 500, when it is "An internal error occurred." |
| ErrorHandling.StatusFor | API/Middleware/GlobalExceptionHandlerMiddleware.cs:30-36 | The substring tests always choose one of 404, 401, 409 and 500. `ErrorHandling.HandleException` states which. |
| ErrorHandling.ProductNotFoundGives404 | API/Middleware/GlobalExceptionHandlerMiddleware.cs:34 | The "Product not found" of product Update and Delete becomes a 404 with that message. |
| ErrorHandling.CategoryNotFoundGives404 | API/Middleware/GlobalExceptionHandlerMiddleware.cs:34 | The "Category not found" of category Update and Delete becomes a 404 with that message. |
| ErrorHandling.LinkedProductsGives409 | API/Middleware/GlobalExceptionHandlerMiddleware.cs:36 | "Category has linked products" becomes a 409 with that message. |
| ErrorHandling.InvalidCredentialsGives401 | API/Middleware/GlobalExceptionHandlerMiddleware.cs:35 | "Invalid credentials" becomes a 401 with that message. |
| ErrorHandling.InvalidRefreshTokenGives401 | API/Middleware/GlobalExceptionHandlerMiddleware.cs:35 | "Invalid refresh token" becomes a 401 with that message. |
| ErrorHandling.UserExistsGives500 | API/Middleware/GlobalExceptionHandlerMiddleware.cs:30-38 | Registration's "User exists" matches none of the patterns. It becomes a 500 with the generic body. |

Some members define a source operation but carry no contract of their own, so the table has no row for them. Each is listed below with its source lines and the row whose contract states its use:

- `AuthSpec.FindByEmail`: AuthService.cs lines 28 and 55. See `AuthSpec.RegisterExistingEmail`, `AuthSpec.RegisterFreshEmail` and `AuthSpec.LoginOutcome`.
- `AuthSpec.HasLiveToken` and `AuthSpec.FindByRefreshToken`: AuthService.cs line 71. See `AuthSpec.RefreshOutcome`.
- `AuthSpec.IssueAccessToken`: AuthService.cs lines 90-101. See `AuthSpec.GenerateTokensRotates`.
- `AuthSpec.RefreshExpiry`: AuthService.cs line 106. See `AuthSpec.GenerateTokensRotates`.
- `AuthSpec.NewUser`: AuthService.cs lines 31-36. See `AuthSpec.RegisterFreshEmail`.
- `AuthSpec.AuthError.Message`: the texts thrown at AuthService.cs lines 29, 56 and 72. See `ErrorHandling.InvalidCredentialsGives401`, `ErrorHandling.InvalidRefreshTokenGives401` and `ErrorHandling.UserExistsGives500`.
- `Entities.CatalogueError.Message`: the texts thrown at ProductService.cs lines 114 and 138 and CategoryService.cs lines 100 and 124-125. See `ErrorHandling.ProductNotFoundGives404`, `ErrorHandling.CategoryNotFoundGives404` and `ErrorHandling.LinkedProductsGives409`.
- `Repository.FindCategory`: CategoryService.cs line 99 and ProductService.cs line 187. See `Categories.GetById`, `Categories.CategoryService.Update` and `Products.CategoryName`.
- `Products.NewProduct`: ProductService.cs lines 22-32. See `Products.ProductService.Create` and `Products.NormalizeImagePath`.
- `Products.FindProduct`: ProductService.cs lines 113 and 137. See `Products.GetById`, `Products.ProductService.Update` and `Products.ProductService.Delete`.
- `Products.ToDto`: ProductService.cs lines 60-70. See `Products.ToDtos` and `Products.CategoryName`.
- `Products.MatchesFilter` and `Products.Filter`: ProductService.cs lines 54-56. See `Products.GetAllMatchesFilters` and `Repository.Where`.
- `Products.Paginate`: ProductService.cs line 58. See `Products.PaginateAt` and `Products.PaginateIsSlice`.
- `Products.MatchesKeyword`: ProductService.cs lines 159-160. See `Products.SearchExact`.
- `Categories.LinkedProducts`, `Categories.HasLinkedProducts` and `Categories.ToDto`: CategoryService.cs lines 54-59, 85 and 125. See `Categories.CountLinked`, `Categories.CountLinkedIsNavigationSize`, `Categories.ProductCountIsLinkedCount` and `Categories.CategoryService.Delete`.
- `Uploads.ExtensionBefore`: ProductsController.cs line 35. See `Uploads.GetExtension` and `Uploads.ExtensionBeforeFinds`.
- `Uploads.RelativeImagePath`: ProductsController.cs line 64. See `Uploads.AcceptedPathHasAllowedExtension` and `Uploads.DeleteFindsUploadedFile`.
- `Text.IsWhiteSpace` and `Text.IsNullOrWhiteSpace`: ProductService.cs line 29. See `Products.NormalizeImagePath` and `Uploads.UploadedPathStoredVerbatim`.
- `Text.ToLowerChar`: ProductService.cs line 154 and ProductsController.cs line 35. See `Text.ToLower`.
- `Text.Contains`: GlobalExceptionHandlerMiddleware.cs lines 34-36 and ProductService.cs lines 159-160. See `ErrorHandling.HandleException` and `Products.SearchExact`.

Helper lemmas used only inside other proofs have no row either.

## Left out

- Password hashing: BCrypt's `HashPassword` and `Verify` are a supplied pair of functions. "Every password verifies against its own hash" is a hypothesis (`AuthSpec.Sound`) of the one lemma that needs it. Nothing is assumed about a password checked against a different password's hash.
- Password hashing is deterministic in the model. BCrypt's `HashPassword` is salted, so two calls on one password give different hashes. No lemma relies on two hashes of one password being equal.
- JWT encoding: the access token is the record of its claims, issuer, audience, expiry and signing key. Serialisation and HMAC-SHA256 signing are not modelled.
- Randomness, ids and the clock: `RandomNumberGenerator`, `Guid.NewGuid()` and `DateTime.UtcNow` are parameters. One `now` is used per call, where the source reads the clock separately for the lookup and for each expiry.
- `AuthSpec.RefreshRotatesOut`: it assumes the newly drawn token differs from the presented one and that no two users hold the same token. The source relies on 64 random bytes for both.
- Token lifetimes: the model uses whole minutes and whole days. The source parses them from configuration as `double`.
- Async execution: the `.Wait()` on the save inside `GenerateTokens`, cancellation tokens, and concurrency are not modelled. This includes two concurrent registrations racing past the email check. Every call runs to completion alone.
- Error paths: the `try { … } catch { throw; }` wrappers do nothing, so they are not modelled.
- Store failures: a failing save is not modelled. Register saves twice, once after adding the user (AuthService.cs line 39) and once after storing the refresh token (line 108). If the second save failed, the user would stay registered with no refresh token. The model makes Register one atomic step.
- Response writing: JSON serialisation of the error body `{ error = message }`, the content type, and everything around the response writer are left out.
- Database semantics: Entity Framework tracking, `Include` and `AsNoTracking` are not modelled.
  - A product's category is looked up by id in the category table.
  - The database's enforcement of unique primary keys and of the product-to-category foreign key is not modelled. The services do not check that `CategoryId` exists.
- `Products.GetAll`: pagination follows LINQ-to-objects `Skip`/`Take`, where a negative count is treated as zero. The application is configured with the PostgreSQL provider (API/Program.cs lines 68-69), which rejects a negative OFFSET and a negative LIMIT. So a request whose wrapped offset `PageOffset(page, limit)` is negative ends in the middleware's 500 instead of the page the model returns. Examples are page 2147483647 with limit 10, and page 0 with any limit above 0. Every limit below 0 also ends in a 500. A request whose wrapped offset is 0 or more is a valid query: with limit 0 the offset is 0 for every page, and a negative page whose product wraps to a non-negative value gets a non-negative offset.
- Result order: the product listing (ProductService.cs lines 50-58, `Skip`/`Take` included), the search (lines 156-161) and the category listing (CategoryService.cs lines 49-52) have no `OrderBy`. PostgreSQL returns their rows in an unspecified order, which can change between requests, for example after an UPDATE. The model returns results in sequence order, and an updated product keeps its index. So the store order of `Repository.WhereAppend` and `Categories.GetAll`, and the `(page - 1) * limit` slice of `Products.GetAllPage`, hold for the model's store only. Deployed GetAll pages can overlap or skip products between requests.
- `Products.GetAll`: `Price` is a `decimal` in the source and an exact integer here, so price filters compare integers.
- Text is compared ordinally:
  - `ToLower` and `ToLowerInvariant` change only the ASCII letters;
  - `StartsWith("image/")` is an ordinal prefix test;
  - `Contains` is an ordinal substring test.
  - the source's `StartsWith(string)` (ProductsController.cs lines 41 and 126) and `ToLower()` (ProductService.cs lines 154-160) are culture-sensitive. Under ICU a content type with an ignorable character, such as U+00AD before "image/", can pass the source's MIME test and fail the model's. The model uses an ordinal prefix test and ASCII-only lower-casing.
- `Uploads.GetExtension`: it follows the .NET scan with both '/' and '\' as directory separators, as on Windows. On Linux only '/' separates.
- File-system effects are not modelled: `Directory.CreateDirectory`, writing the uploaded stream, `File.Exists`/`File.Delete`, and `Path.Combine` with the content root. Delete's mapping of the stored path is modelled up to the point where it is combined with the root.
- Repository lookups: `GetByIdAsync` is modelled as returning null for a missing id. The repository interface declares a non-nullable result. It is the services' null checks that expect null, at ProductService.cs lines 113-114 and 137-138 and CategoryService.cs lines 99-100. The concrete `Repository<TEntity>` instead declares `GetByIdAsync(int)` and throws its own "… was not found." message. `ErrorHandling.HandleException` would also classify that message as 404.
- The store: a user is the six fields of `Entities.User` that `AuthService` reads and writes: id, username, email, password hash, refresh token and its expiry. Nothing else of the `User` entity is modelled. A newly registered user (`AuthSpec.NewUser`) has no refresh token and the default expiry until `GenerateTokens` writes both.
- Other code is not modelled: `Program.cs`, `AuthController`, `CategoriesController` and the `UnitOfWork` plumbing. The `ProductsController` actions are modelled only for their image logic: the rest only forwards to the services.
- Registration's "User exists" is modelled as the code maps it, to a 500 with the generic body. A conflict status is what a duplicate registration would usually get, but the middleware has no pattern for it.
