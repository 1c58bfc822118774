# Product inventory API — a Dafny model

A model of the core of a small Express/MySQL REST API. The API keeps product
categories (`tbl_kategori`), products with an uploaded photo (`tbl_produk`),
stock entries (`tbl_stok`) and users (`tbl_user`). The model covers:

- the upload middleware of `config/multer.js`: the image filter, the 5 MiB
  size limit, and the generated name a photo is stored under;
- the create/read/update/delete handlers of the three resources;
- register, login and logout;
- the global error handler of `server.js`.

How the model is built:

- Every table is a finite map from primary key to row, plus the next
  AUTO_INCREMENT value (`Tables.Table`).
- Every handler is a pure function from the table and the request to the new
  table and the HTTP response. `Api.Dispatch` routes a request to its handler.
- What the running server gets from outside is a parameter of the model:
  - today's date and `Date.now()`;
  - the random suffix;
  - the request's protocol and host;
  - bcrypt's hash and compare;
  - the JWT signer.
- The token check of the authentication middleware is a boolean flag on each
  call. Every endpoint except register and login requires it.
- An UPDATE or DELETE reports the rows it matched. An update that leaves a
  row unchanged still counts as found.
- The error handler of `server.js` is modelled twice: as written
  (`Http.ErrorHandler`) and as intended (`Http.IntendedErrorHandler`). The
  product writes, `Api.Dispatch` and `Api.Run` take an `Http.ErrorPolicy`:
  `AsWritten` is the program, `Intended` the corrected one. See "## Findings".
- A file part with an empty file name is what a browser sends for an empty
  file input. multer skips such a part, so the handler sees no file
  (`Upload.Receive`).

Modules follow the program: `Strings` and `Paths` hold the library
behaviour the handlers rely on (`RegExp.test` on a literal alternation,
ASCII `toLowerCase`, decimal rendering, `path.extname`). `Upload` is
`config/multer.js`, `Http` the response shapes and the error handler,
`Kategori`, `Produk`, `Stok` and `Auth` the route files, `Api` the server.

## Model

| member | source | states |
|---|---|---|
| Upload.TestAllowedTypes | config/multer.js:17 | the pattern `/jpeg\|jpg\|png\|gif/` accepts a string exactly when one of the four words occurs anywhere in it |
| Upload.FileFilter | config/multer.js:16-26 | a file is accepted exactly when both the lower-cased extension of its name and its MIME type contain an allowed word; a refusal carries the "Hanya file gambar …" message |
| Upload.FilterIgnoresNameCase | config/multer.js:18 | the verdict does not depend on the letter case of the file name |
| Upload.NoExtensionRefused | config/multer.js:18-24 | a name without an extension is refused whatever the MIME type |
| Upload.FilterOfJoin | config/multer.js:18-21 | for `base + ext` with a plain base, the verdict depends only on the lower-cased `ext` and the MIME type |
| Upload.UpperCaseExtensionAccepted | config/multer.js:18 | `photo.PNG` with an image MIME type passes, since the extension is lower-cased first |
| Upload.UpperCaseMimeTypeRefused | config/multer.js:19 | a MIME type written without lower-case letters is refused, since it is not lower-cased |
| Upload.ContainedTypeAccepted | config/multer.js:17-18 | an extension that merely contains "jpg" (such as `.jpgx`) passes, since the pattern is unanchored |
| Upload.DotFileRefused | config/multer.js:18 | a dot-file name such as `.png` has no extension and is refused |
| Upload.TextFileRefused | config/multer.js:18-24 | a `.txt` file is refused |
| Upload.Filename | config/multer.js:9-12 | the stored name starts with "produk-" and keeps the extension of the client's name |
| Upload.FilenameIsGenerated | config/multer.js:10-11 | every stored name parses back as "produk-", a timestamp, "-", a suffix and an extension |
| Upload.ParseStoredName | config/multer.js:10-11 | parsing a stored name recovers its timestamp, random suffix and extension |
| Upload.FilenameDeterminedBy | config/multer.js:10-11 | two stored names are equal exactly when timestamp, random suffix and extension are equal |
| Upload.StoredName | config/multer.js:10-11 | a stored name starts with "produk-" and ends with the extension, and no '.' or '/' comes before the extension |
| Upload.AcceptedFileIsNamed | config/multer.js:18-21 | a file the filter accepts has a non-empty name, since the empty name has no extension |
| Upload.Receive | config/multer.js:29-33 | no file, or a file part with an empty name, passes as no file; the filter runs first; an accepted file over 5 MiB is refused; otherwise the file is stored under the generated name |
| Upload.SizeLimitBoundary | config/multer.js:31 | the limit is 5242880 bytes: a file of exactly that size is stored, one byte more is refused |
| Paths.Extname | config/multer.js:11-18 | `path.extname` returns an extension (empty, or a dot followed by no dot) no longer than the path |
| Paths.ExtnameOfJoin | config/multer.js:11 | the extension of `base + ext` is `ext` when the base is plain |
| Paths.NoDotNoExtension | config/multer.js:18 | a path without a dot has no extension |
| Paths.ExtnameLower | config/multer.js:18 | lower-casing a name and taking its extension commute |
| Strings.Lower | config/multer.js:18 | `toLowerCase` keeps the length and maps each character on its own: an ASCII capital to its small letter, every other character to itself |
| Strings.Decimal | config/multer.js:10 | a number concatenated to a string renders as a non-empty string of digits, with a leading zero only for 0 itself |
| Strings.Contains | config/multer.js:17 | `Contains(s, t)` holds exactly when `t` occurs in `s` at some position |
| Strings.DecimalRoundTrip | config/multer.js:10 | the decimal rendering of a number reads back as that number |
| Strings.DecimalInjective | config/multer.js:10 | different numbers render differently |
| Strings.SplitDigitsAt | config/multer.js:10-11 | splitting at the first non-digit recovers a digit string followed by a rest that does not start with a digit |
| Http.ErrorHandler | server.js:41-50 | an error whose message contains "gambar" is answered 400 with that message; every other error is answered 500 "Terjadi kesalahan server" |
| Http.FilterErrorIsBadRequest | server.js:45-46 | the word the handler looks for occurs in the filter's message, so the filter's refusal reaches the client as 400 with that message |
| Http.SizeLimitIsServerError | server.js:44-49 | as written, multer's "File too large" does not mention "gambar", so an over-size photo is answered 500 |
| Http.IntendedErrorHandler | server.js:41-50 | as intended: an error multer raised, or one whose message contains "gambar", is answered 400 with its message; every other error is answered 500 |
| Http.IntendedDiffersOnlyOnMulterErrors | server.js:44-46 | the intended handler differs from the one as written exactly on multer's errors whose message lacks "gambar" |
| Tables.Select | routes/kategori.js:50-56 | a SELECT by key finds a row exactly when the key is present, and that row's value |
| Tables.Insert | routes/kategori.js:88-94 | an INSERT uses a key not in the table, adds exactly that row, and advances the counter past it |
| Tables.UpdateById | routes/kategori.js:133-140 | an UPDATE by key matches no row when the key is absent, otherwise exactly that row, and changes nothing else |
| Tables.DeleteById | routes/kategori.js:168-175 | a DELETE by key removes that key only, and reports whether it was present |
| Tables.Scan | routes/kategori.js:20 | a full-table SELECT lists every row exactly once, in ascending key order |
| Tables.FindFirst | routes/auth.js:100-105 | a SELECT with a condition returns the smallest key whose row satisfies it, or nothing when none does |
| Tables.ViewsComplete | routes/kategori.js:20-21 | a list made of one response object per scanned row shows every row of the table |
| Tables.SelectAfterInsert | routes/kategori.js:88-94 | after an INSERT, every other key reads as before |
| Tables.SelectAfterDelete | routes/kategori.js:168-175 | after a DELETE, the deleted key reads as absent and every other key as before |
| Kategori.View | routes/kategori.js:20 | a category is answered with its key and its stored name |
| Kategori.List | routes/kategori.js:18-25 | GET /api/kategori lists every category once and nothing else |
| Kategori.Get | routes/kategori.js:47-60 | 404 "Kategori tidak ditemukan" exactly when the key is absent, otherwise that category |
| Kategori.Create | routes/kategori.js:85-99 | 201 with a fresh key under which the name is stored |
| Kategori.Update | routes/kategori.js:130-146 | 404 and no change exactly when the key is absent, otherwise the name is replaced |
| Kategori.Delete | routes/kategori.js:166-181 | 404 exactly when the key is absent; the key is gone afterwards |
| Kategori.CreateThenGet | routes/kategori.js:85-99 | a created category reads back under the returned key |
| Kategori.UpdateThenGet | routes/kategori.js:130-146 | an updated category reads back with the new name |
| Kategori.DeleteThenGet | routes/kategori.js:166-181 | a deleted category reads as 404 |
| Produk.FotoUrl | routes/produk.js:8-11 | no URL for a missing or empty file name; otherwise `protocol://host/uploads/` followed by the name |
| Produk.FotoUrlRoundTrip | routes/produk.js:8-11 | the file name is recovered from its URL |
| Produk.FotoUrlInjective | routes/produk.js:8-11 | different file names give different URLs |
| Produk.JoinKategori | routes/produk.js:28-30 | the LEFT JOIN yields the category's name when the product's category exists, otherwise null |
| Produk.View | routes/produk.js:27-36 | a product is answered with its key and every column of its row, the joined category name and the URL of its own photo |
| Produk.List | routes/produk.js:25-43 | GET /api/produk lists every product once, with its category name and its photo URL |
| Produk.Get | routes/produk.js:65-88 | 404 "Produk tidak ditemukan" exactly when the key is absent, otherwise the product's view |
| Produk.GetAgreesWithList | routes/produk.js:34-84 | a product read alone is the same as its entry in the list |
| Produk.Create | routes/produk.js:129-152 | 400 "Foto produk wajib diupload" and no change without a file; otherwise 201 with a fresh key, the row with the file name and today's date, and the photo URL |
| Produk.Updated | routes/produk.js:201-212 | the three body fields are always replaced, the photo only when a new one came, the registration date never |
| Produk.Update | routes/produk.js:194-227 | 404 and no change exactly when the key is absent; otherwise the row is rewritten and the URL of the new photo, or null, is returned |
| Produk.Delete | routes/produk.js:249-263 | 404 exactly when the key is absent; the key is gone afterwards |
| Produk.CreateThenGet | routes/produk.js:129-152 | a created product reads back with its fields and the same photo URL the create answered |
| Produk.UpdateWithoutPhotoKeepsPhoto | routes/produk.js:207-211 | an update without a file keeps the old photo |
| Produk.UpdateWithPhotoReplacesPhoto | routes/produk.js:201-206 | an update with a file stores the new photo |
| Produk.DeleteThenGet | routes/produk.js:249-263 | a deleted product reads as 404 |
| Stok.JoinProduk | routes/stok.js:21-23 | the LEFT JOIN finds the stock entry's product when it exists |
| Stok.View | routes/stok.js:21-23 | the entry's own columns, and the name and code of its product when that exists; both are null exactly when it does not |
| Stok.List | routes/stok.js:18-29 | GET /api/stok lists every stock entry once, with its product's name and code |
| Stok.Get | routes/stok.js:51-70 | 404 "Stok tidak ditemukan" exactly when the key is absent, otherwise the entry's view |
| Stok.Create | routes/stok.js:98-115 | 201 with a fresh key under which product, quantity and today's date are stored |
| Stok.Update | routes/stok.js:146-164 | 404 and no change exactly when the key is absent; otherwise product and quantity are replaced and the date reset to today |
| Stok.Delete | routes/stok.js:184-198 | 404 exactly when the key is absent; the key is gone afterwards |
| Stok.CreateThenGet | routes/stok.js:98-115 | a created stock entry reads back under the returned key |
| Stok.DeleteThenGet | routes/stok.js:184-198 | a deleted stock entry reads as 404 |
| Stok.OrphanStillListed | routes/stok.js:21-23 | a stock entry whose product was deleted is still listed, with null name and code |
| Auth.FindByEmail | routes/auth.js:100-105 | finds a user with the email exactly when one is registered |
| Auth.Register | routes/auth.js:37-65 | 400 "Email sudah terdaftar" and no change exactly when the email is taken; otherwise 201 with a fresh key storing the name, the email and the password's hash |
| Auth.RegisterPreservesUniqueEmails | routes/auth.js:42-47 | registration never creates two users with one email |
| Auth.RegisterTwiceRefused | routes/auth.js:42-47 | registering the same email twice is refused the second time, whatever the password |
| Auth.PasswordNeverStoredInClear | routes/auth.js:50-56 | the stored password is the hash, not the plaintext |
| Auth.Login | routes/auth.js:95-132 | 200 only for a registered email whose stored hash accepts the password, with a token over the user's id and email expiring in 24h and the user without password; every failure is the same 401 |
| Auth.LoginSucceedsIff | routes/auth.js:100-111 | with unique emails, login succeeds exactly when some user has the email and a hash that accepts the password |
| Auth.LoginFailuresAlike | routes/auth.js:101-111 | an unknown email and a wrong password get identical answers |
| Auth.Logout | routes/auth.js:146-148 | 200 "Logout berhasil" |
| Api.ProdukWrite | routes/produk.js:129-227 | no file, or a file stored under the generated name, reaches the create or update handler with `req.file.filename` or none; a refused photo is answered 400 with the filter message; an over-size one is answered 500 as written and 400 with multer's message as intended (see "## Findings"); in those two cases the handler does not run and nothing changes |
| Api.ProdukWritePoliciesAgree | server.js:44-49 | the program as written and as corrected reach the same tables, and answer differently exactly for an over-size photo |
| Api.AuthRoute | routes/auth.js:37-148 | the auth endpoints touch only the user table; login and logout change nothing |
| Api.KategoriRoute | routes/kategori.js:18-181 | the category endpoints touch only the category table; the reads change nothing |
| Api.ProdukRoute | routes/produk.js:25-263 | the product endpoints touch only the product table; the reads change nothing |
| Api.StokRoute | routes/stok.js:18-198 | the stock endpoints touch only the stock table; the reads change nothing |
| Api.Dispatch | server.js:22-25 | each request writes at most the table of its own resource; reads leave the database unchanged |
| Api.Run | server.js:22-25 | a sequence of requests of which none writes leaves the database unchanged |
| Api.RefusedPhotoChangesNothing | server.js:45-46 | a product create or update with a named photo the filter refuses answers 400 with the filter message and changes nothing, under either error handler |
| Api.OversizePhotoServerError | server.js:44-49 | as written, a product create or update with an accepted photo over 5 MiB is answered 500 "Terjadi kesalahan server" and changes nothing |
| Api.OversizePhotoRejected | config/multer.js:31 | with the intended error handler (see "## Findings"), the same request is answered 400 "File too large" and changes nothing |
| Api.AcceptedPhotoCreated | routes/produk.js:136-148 | a product create with an accepted photo within 5 MiB is answered 201, and the new row under a fresh key holds the fields, the generated file name and today's date |
| Api.AcceptedPhotoUpdated | routes/produk.js:201-206 | a product update of an existing key with an accepted photo within 5 MiB is answered 200, and the row's photo becomes the generated file name |
| Api.CreateWritesPhoto | routes/produk.js:136-148 | the same for the product write alone, under either error handler |
| Api.UpdateWritesPhoto | routes/produk.js:201-206 | the same for the product write alone, under either error handler |
| Api.EmptyFileInputIsNoPhoto | routes/produk.js:131-133 | a product create whose file input is empty is answered 400 "Foto produk wajib diupload" and changes nothing |
| Api.CreateKeepsPhotos | routes/produk.js:136-142 | creating a product with a generated photo name keeps every stored photo name a generated one |
| Api.UpdateKeepsPhotos | routes/produk.js:201-212 | updating a product keeps every stored photo name a generated one |
| Api.ProdukWriteKeepsPhotos | routes/produk.js:129-227 | a product create or update keeps every stored photo name a generated one, under either error handler |
| Api.ProdukRouteKeepsPhotos | routes/produk.js:129-263 | product writes keep every stored photo name a generated one |
| Api.DispatchKeepsInvariant | server.js:22-25 | every request keeps emails unique and every product's photo a generated name, under either error handler |
| Api.RunKeepsInvariant | server.js:22-25 | so does any sequence of requests |
| Api.ReachableInvariant | server.js:22-25 | from empty tables, any sequence of requests leaves emails unique and every product with a generated photo name, for the program as written and as corrected |

## Findings

| source | as written | input that shows it | evidently intended | confidence | as-written member | corrected member |
|---|---|---|---|---|---|---|
| server.js:44-49 | the branch commented "Handle multer errors" answers 400 only when the message contains "gambar" | a product create with a `.png` photo of 5242881 bytes: multer raises "File too large", which is answered 500 "Terjadi kesalahan server" | every upload error, the size limit included, is a client error answered 400 with its message: the branch is commented "Handle multer errors" (server.js:44), and the create endpoint documents its upload failures as `400: Bad request` (routes/produk.js:126-127) | medium, not executed | Http.SizeLimitIsServerError | Http.IntendedErrorHandler |

## Left out

- middleware/auth.js is not part of this model. The token check is the `authenticated` flag of a call, and its 401 answers are not modelled.
- The `try … catch` branches that answer 500 with a database error's message are left out. The database is modelled as never failing: no connection loss, no foreign-key or NOT NULL violation, no type coercion error.
- config/database.js (the connection pool) and swagger.js (API documentation) are not modelled. server.js is modelled only for its routing and error handler. CORS, body parsing, static file serving, the 404 fallback and the root endpoint are left out.
- bcrypt, jsonwebtoken and the JWT secret are parameters. The model does not say how a hash or a token is computed.
- `Date.now()`, today's date and `Math.random()` are parameters. The model does not derive the date from the clock.
- The photo is written to `public/uploads/` on disk. That write is not modelled, and neither are the files left behind when a photo is replaced or a product is deleted.
- Requests run one at a time. Concurrent requests, and the race between the email check and the insert in register, are not modelled.
- multer's "Unexpected field" error (a file under another field name) is not modelled. Of multer's own errors only the size limit's is, with multer's message text "File too large".
- Multipart and JSON parsing are not modelled. That includes the string-to-number coercion MySQL applies to ids, and missing or null body fields. Body fields arrive already typed.
- Produk.CreateThenGet, Stok.CreateThenGet, Produk.View and Stok.View: the column types of the tables are not visible, so every column is modelled as giving back exactly the value written. That includes the "YYYY-MM-DD" strings written to `tgl_register` and `tgl_update`. If those are DATE columns, the driver (whose pool is created without `dateStrings`) returns a `Date` at local midnight, and the response prints it as a UTC timestamp that can name the previous day. The date read back is then not the string the model promises.
- Email comparison is exact string equality. The column's collation, which may ignore case, is not visible.
- `toLowerCase` is modelled on ASCII letters only. No non-ASCII letter lowers to one of the pattern's words, so the filter's verdict is unaffected.
- `path.extname` is modelled with POSIX separators only. That is an assumption: the server's platform is not visible. multer's multipart parser already strips directory parts from the client's file name, so that name reaches `path.extname` without them.
- The order of rows from an unordered SELECT is modelled as ascending primary key. Login's `users[0]` is the user with the smallest key.
- Stok.Create and Stok.Update do not check that the product exists, because the source does not.
- Auth.Logout: its contract is only the fixed answer, because the handler does nothing else.
