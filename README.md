# News API request handling, modelled in Dafny

This project models the decision logic of the three controllers of an
Express/Prisma news backend:

- the auth controller registers users and logs them in;
- the news controller lists news with offset pagination, and creates, shows, updates and deletes news;
- the profile controller echoes the authenticated user and sets a user's profile image.

The state is abstract:

- `Database` (module `Prisma`) holds a `users` table and a `news` table.
  Both are maps from the auto-incremented id to the row. The class also holds
  the next id of each table and two flags. When `online` is false, every
  query throws. When `writable` is false, reads succeed but the handler's one
  insert, update or delete throws, after whatever the handler did before it.
- `MediaStore` holds the set of file names in the public image directory.
  It also keeps a log of every store and removal, so "removed exactly once"
  can be stated.

The handlers that change state are methods over these two objects. These are
news `Store`, `Update` and `Destroy`, auth `Register` and profile `Update`.
Each method's `ensures` gives the response and the whole new state for every
branch the handler takes. The handlers that only read are functions of the
table values: news `Index` and `Show`, auth `Login` and profile `Index`.

Everything the controllers call but do not define is passed in as the
`Services` record (module `Http`):

- the three request schemas (`Body -> Validation<...>`);
- `imageValidator(size, mimetype)` (`imageCheck`);
- the password hash and its comparison (`hash`, `verify`);
- the token signer (`sign`), which produces a JSON Web Token as defined by RFC 7519.

The model states what the controllers decide on top of those results. A name
the upload helper generates, and the number the random-number helper returns,
are parameters.

Request values are modelled as follows:

- A query or path value that is missing or not a number is `None`. JavaScript's
  `Number(...)` gives NaN for both.
- Uploaded files are a map from form field to `Upload`. No upload is the empty
  map.
- The authenticated user is the `Claims` record that the auth middleware
  attaches. The routes put that middleware in front of profile index and
  update, and news store, update and destroy, so those handlers always receive
  one.

Behaviour reproduced as the code has it:

- A news `update` of a nonexistent id answers 500. The owner check dereferences
  the null lookup result. A `destroy` of a nonexistent id answers 401.
- A non-owner's `update` answers 400 `"UnAtuhorized"`, spelled as in the code.
  A non-owner's `destroy` answers 401 `"UnAuthorized"`.
- `show` of a missing id answers 200 with `news: null`.
- News `store` uploads the image before inserting the row. When the insert
  fails, the response is 500 and the image file stays behind.
- News `store` with files but none under `image` passes `undefined` to the
  image validator. If the validator accepts that, the upload helper is handed
  `undefined`. The model assumes the helper then throws, which gives 500.
- Profile `update` with files but none under `profile` answers 500, because it
  reads `profile.mimetype` of `undefined`.
- Profile `update` stores the new file before the row update. A missing row,
  a NaN id or an unreachable store then gives 500 with the file kept.
- The profile file name keeps the second dot-separated segment of the
  original name, not the last one. A name without a dot gives the extension
  `undefined`.
- Profile `update` changes the row named in the path. It never compares that
  id with the authenticated user's id, so any authenticated caller can set
  any user's profile image. `ProfileController.Update` takes the caller as a
  parameter, and its contract shows that the caller plays no part.
- The profile controller's 500 body is `{message: "Something Went Wrong!"}`.
  The other two controllers send `{status: 500, message: "Something Went Wrong! Please Try Again..."}`.

These are kept even where a cleaner design would answer differently. Two examples:

- The code answers a non-owner's update with 400, not 403.
- `show` returns `null` rather than a not-found error.

## Model

| member | source | states |
|---|---|---|
| `Pagination.NormalisePage` | src/controllers/NewsController.js:11-19 | the page is always at least 1; a positive query page is kept, and a missing, non-numeric, zero or negative one becomes 1 |
| `Pagination.NormaliseLimit` | src/controllers/NewsController.js:13-25 | the limit always lies in 1..100; a query limit in 1..100 is kept, and a missing, non-numeric, non-positive or over-100 one becomes 10 |
| `Pagination.Skip` | src/controllers/NewsController.js:27 | the offset `(page-1)*limit` is never negative and is 0 exactly for page 1 |
| `Pagination.TotalPages` | src/controllers/NewsController.js:45-47 | `ceil(total/limit)`: the fewest pages of `limit` records that hold all records (`pages*limit >= total`, and one page fewer would not) |
| `Pagination.PageLength` | src/controllers/NewsController.js:29-31 | `take: limit, skip`: a page holds at most `limit` records, stays inside the table, and is empty exactly when the offset reaches the total; it is full while at least `limit` records remain, and otherwise runs to the end of the listing |
| `Pagination.NonEmptyPageIffWithinTotal` | src/controllers/NewsController.js:27-47 | a page holds records if and only if its number is at most the reported `totalPages` |
| `NewsController.Index` | src/controllers/NewsController.js:9-59 | 200 with at most `limit` items, namely the listing's records from offset `skip` on, each joined with its author; the metadata echoes the normalised page and limit and has `totalPages = ceil(count/limit)`; the page is non-empty iff `currentPage <= totalPages` |
| `NewsController.Show` | src/controllers/NewsController.js:132-166 | a failing lookup (store down, non-numeric id) gives the generic 500; otherwise 200 with the row and its author when the id exists and `null` when it does not |
| `NewsController.Store` | src/controllers/NewsController.js:61-130 | validation failure, no files, and an image-validator message each give 400, in that order, with no row and no file; success stores the image and adds exactly one row under the next id, advancing the id counter by one (no other outcome moves it), with that image and the caller's id as owner; files accepted by the checks but none under `image` give the generic 500 with nothing stored; an unreachable store or a rejected insert gives the generic 500 after the upload, leaving the stored image and adding no row; preserves `ImagesBacked` when the upload name is new |
| `NewsController.Update` | src/controllers/NewsController.js:168-242 | a missing row or failed lookup gives 500; a non-owner gets 400 "UnAtuhorized" before the body is validated; these and every 400 leave table and files unchanged; an owner's update with a new image stores it, sets it on the row and removes the old file exactly once; without one the row keeps its image and no file is touched; when the store rejects the update, the answer is the generic 500 with the row unchanged, but a new image has already been stored and the old file removed, so `ImagesBacked` is broken; otherwise `ImagesBacked` is preserved when the upload name is new |
| `NewsController.Destroy` | src/controllers/NewsController.js:244-283 | a missing row or a non-owner gets 401 and nothing changes; the owner's delete removes that row's image once and deletes only that row, preserving `ImagesBacked`; when the store rejects the delete, the answer is the generic 500 after the image was removed, the row is kept and `ImagesBacked` is broken |
| `AuthController.Register` | src/controllers/AuthController.js:9-68 | a body the schema rejects gives 400 with the validator's messages; a stored email gives 400 `{email: "Email Already Taken"}`; an unreachable store, or an insert the store rejects after the email lookup, gives the generic 500; in all these Users is unchanged; otherwise exactly one user is added under the next id with the payload's name and email and `Hash(password)`, and emails stay unique |
| `AuthController.Login` | src/controllers/AuthController.js:71-142 | a rejected body gives 400 with the validator's messages; an unreachable store gives the generic 500; an unknown email gives 400 "No User Found With This Email."; a stored email with a wrong password gives 400 "Invalid Credentials..."; a token is issued iff a stored user has the email and the password matches its hash, and it is `"Bearer " + Sign({id, name, email, profile})` of that user; a function of the table, so Users is never changed |
| `AuthController.LoginAfterRegistration` | src/controllers/AuthController.js:35-47 | after the row `register` inserts, logging in with the same email and password succeeds, and the token carries the new id, name, email and no profile, given that the password comparison accepts the hash it was given |
| `Records.FindUserByEmail` | src/controllers/AuthController.js:19-23 | `findUnique` by email finds a user iff one has that email, and then it is the only such user |
| `Records.InsertFreshEmailKeepsUnique` | src/controllers/AuthController.js:25-41 | inserting a user whose email is not stored keeps emails unique |
| `Records.InsertKeepsImagesBacked` | src/controllers/NewsController.js:97-105 | adding a row whose image was just stored under a new name keeps every row's image stored and unshared |
| `Records.ReplaceImageKeepsImagesBacked` | src/controllers/NewsController.js:208-221 | replacing a row's image by a newly stored one and removing the old file keeps every row's image stored and unshared |
| `Records.DeleteKeepsImagesBacked` | src/controllers/NewsController.js:264-270 | deleting a row together with its image keeps every remaining row's image stored and unshared |
| `Prisma.Database.CreateUser` | src/controllers/AuthController.js:39-41 | for a write the store accepts, one more row under the next id, the counter advanced by one, nothing else changed |
| `Prisma.Database.SetProfile` | src/controllers/ProfileController.js:64-71 | for a write the store accepts, only the profile field of that one row changes |
| `Prisma.Database.CreateNews` | src/controllers/NewsController.js:103-105 | for a write the store accepts, one more row under the next id, the counter advanced by one, nothing else changed |
| `Prisma.Database.UpdateNews` | src/controllers/NewsController.js:216-221 | for a write the store accepts, the row gets the payload's title and description, and the new image if one is given; it keeps its owner |
| `Prisma.Database.DeleteNews` | src/controllers/NewsController.js:266-270 | for a write the store accepts, exactly that row is gone |
| `Prisma.MediaStore.Store` | src/controllers/NewsController.js:97 | writing a file (the upload helper, and the profile file move at src/controllers/ProfileController.js:58-62) adds its name to the directory, overwriting any file of that name, and the store is logged |
| `Prisma.MediaStore.Remove` | src/controllers/NewsController.js:212 | removing a name deletes it if present and is a no-op otherwise; the removal is logged |
| `Filenames.Split` | src/controllers/ProfileController.js:52 | `split(".")` yields at least one segment, none containing the separator |
| `Filenames.JoinSplit` | src/controllers/ProfileController.js:52 | joining the segments of a name with the separator gives back the name |
| `Filenames.SplitJoin` | src/controllers/ProfileController.js:52 | splitting a join of separator-free segments gives back the segments |
| `Filenames.Digits` | src/controllers/ProfileController.js:54 | the random number's decimal text is non-empty and contains only digits, hence no dot |
| `Filenames.Extension` | src/controllers/ProfileController.js:52-54 | `imgExt[1]`: the second segment when there is one, otherwise the text "undefined"; never contains a dot |
| `Filenames.ProfileFileName` | src/controllers/ProfileController.js:52-54 | the stored name splits into exactly two segments: the random number's digits and the extension |
| `Filenames.ExtensionIsSecondSegment` | src/controllers/ProfileController.js:52-54 | for a name with two dots the kept segment is the middle one, not the last |
| `ProfileController.Index` | src/controllers/ProfileController.js:6-20 | 200 with exactly the authenticated user; takes no store, so cannot read one |
| `ProfileController.Update` | src/controllers/ProfileController.js:26-86 | no files gives 400 "Profile Image Is Required"; files without `profile` give 500; an image-validator message gives 400 `{profile: message}`; none of these changes anything; an accepted image is stored under `random + "." + segment[1]`; after that an unreachable store, a rejected write, a non-numeric id or a missing row gives 500 `{message: "Something Went Wrong!"}` with Users unchanged; success iff the store is up and accepts the write and the path id names a row, whichever user is calling, and then only that row's profile field changes |

## Left out

- Asynchrony and concurrency: each handler runs as one uninterrupted step. Two concurrent requests cannot interleave, so last-write-wins races are not modelled.
- The `profile.mv` callback (src/controllers/ProfileController.js:58-62) throws outside the try block. A failed file move is therefore not modelled: the file always counts as stored.
- A store failure in news `index` is left out. The handler has no try block, so the rejection is not answered by the handler.
- The internals of the request schemas, the image validator, the upload and remove helpers, the random-number helper, bcrypt and JSON Web Token signing are not modelled. They are parameters (`Services`, `imageName`, `randomNum`). The token's 365-day expiry is not represented.
- The response transform (`NewsApiTransform`) is not part of this model. Index and show return the joined row unchanged.
- The order in which the store lists news rows is a parameter, `order`, constrained only to list every row once.
- JavaScript number coercion of fractional, infinite or very large query and path values is left out. Values are integers or `None`.
- Prisma's handling of payload fields beyond those the schemas return is left out. So are the timestamps of a news row.
- Route wiring, the auth middleware's token checks, the rate limiter, CORS, security headers, static serving and the API documentation are left out. The middleware is represented only by the `Claims` it attaches.
- `ProfileController` `store`, `show` and `destroy` are left out because they have empty bodies and send no response.
- `Filenames.ProfileFileName`: the random-number helper is not part of this model. Its result is assumed to be a non-negative integer, written in decimal. The two-segment property rests on that assumption: a fractional value would add a dot.
- `NewsController.Store`: the upload helper is not part of this model. The 500 for files without an `image` entry that the image validator accepts rests on the assumption that the helper throws when handed `undefined`.
- A handler makes at most one write, so one `writable` flag decides it; which store error makes a write fail is not modelled.
- `NewsController.Store`, `NewsController.Update`: the preservation of `ImagesBacked` assumes the name the upload helper picks is not already in the directory. The helper is not shown, so this is a hypothesis of the contract, not a guarantee of the model.
