# Request handlers of the go-marketplace user and product services

This project models the request-handling layer of two gRPC services. The user
service keeps accounts. Its handlers are `CreateUser`, `UpdateUser` and
`DeleteUser`. The product service keeps a catalog. Its handlers are
`CreateProduct`, `UpdateProduct`, `DeleteProduct` and the name search
`GetAllProductsByQuery`. Each handler issues one SQL statement (CreateUser issues
a role lookup first) and sorts the outcome into a reply or a gRPC status. In the
model, the relational store is an in-memory table: a map from id to row. Ids come
from a sequence that starts at 1, and the users table has a unique constraint
on email.

Layout:

- `outcomes.dfy` (module `Outcomes`): status codes (`NotFound`, `AlreadyExists`,
  `Internal`), store errors (`NoRows`, `UniqueViolation`, `Driver`), handler
  errors (a status the handler built, or `Raw`: the store's error passed on
  unclassified), and `Fault`, a driver failure of one statement.
- `secrets.dfy` (module `Secrets`): the bcrypt hasher, kept abstract as a
  `Hasher` value. Its `hash` may fail and its `verify` checks a digest.
  `Sound` says what any usable hasher guarantees.
- `users.dfy` (module `Users`): the account handlers as functions from the
  tables before the call to the reply and the tables after it. Also the
  `COALESCE(NULLIF($n, ''), column)` rule, the error classification and
  lemmas that relate several calls.
- `user_handler.dfy` (module `UserHandler`): class `UserServerHandler`. It
  holds the users table and the read-only roles table. Each method takes the
  handler's steps in order, returns early the way the Go code does, and is
  proved equal to its function in `Users`.
- `products.dfy` (module `Products`): the catalog handlers and the search as
  functions, with the search's soundness and completeness lemmas.
- `product_handler.dfy` (module `ProductHandler`): class `ProductServer`. Its
  search method collects the result rows in a loop. It is the corrected
  search of "## Findings": unlike the Go code, it checks the stream's error
  after the loop.

Inputs that the tables cannot determine are parameters of the handlers:

- A `Fault` per statement (and per `RowsAffected` call) stands for a failure of
  the driver or the connection.
- A `Hasher` stands for bcrypt. Its salt is random, so each call receives its own.
- `now` is the store's clock `NOW()`.
- `scan` is the order in which the store reads the products table.
- `RowFault` stands for a failed `Scan` of one row, or a result stream that
  breaks off.

A missing row and a duplicate email are not parameters. The table decides them.

## Model

| member | source | states |
|---|---|---|
| `Users.KeepIfEmpty` | user-service/internal/handlers/user_handler.go:106-110 | an empty request value keeps the stored column, any other value replaces it; the result is empty only when both are |
| `Users.Merge` | user-service/internal/handlers/user_handler.go:104-111 | the row written by UpdateUser: each of email, first name, last name and phone is replaced only by a non-empty request value, the digest only when a new one is given, and the role id never changes |
| `Users.ClassifyInsertError` | user-service/internal/handlers/user_handler.go:67-75 | an insert failure is AlreadyExists "email already exists" exactly when it is a unique violation, and Internal "failed to create user" otherwise |
| `Users.ClassifyUpdateError` | user-service/internal/handlers/user_handler.go:128-134 | "no rows" becomes NotFound "user not found"; every other store error is returned unclassified |
| `Users.ReplaceKeepsEmailsUnique` | user-service/internal/handlers/user_handler.go:104-111 | rewriting one row keeps emails unique when no other row already holds the new email |
| `Users.CreateUser` | user-service/internal/handlers/user_handler.go:23-80 | the role lookup of "buyer" failing (missing row or driver error) gives Internal "failed to get user role"; then a hashing failure gives Internal "failed to process password"; then a taken email gives AlreadyExists and any other insert failure gives Internal; every failure leaves the tables unchanged; the call succeeds exactly when the role is found, the password hashes, the insert does not fail and the email is free; success adds exactly one row under a fresh positive id, holding the request's names, email and phone, the digest of the password and the looked-up role id; email uniqueness is preserved |
| `Users.UpdateUser` | user-service/internal/handlers/user_handler.go:82-139 | a non-empty password that cannot be hashed gives Internal before the table is read; a missing id gives NotFound "user not found"; a driver error or a new email held by another row is returned unclassified; every failure leaves the table unchanged; the call succeeds exactly when the password (if any) hashes, the statement does not fail, the id exists and the merged email is held by no other row; success rewrites only the requested row with the coalesced values and returns its id, email, names and phone, never the digest; email uniqueness is preserved |
| `Users.DeleteUser` | user-service/internal/handlers/user_handler.go:141-158 | a failed exec is returned unclassified with the table unchanged; otherwise exactly the row with that id is gone, and the reply is success when a row was deleted, NotFound "user not found" when none was, and the raw error when the affected-row count cannot be read (the row is deleted all the same) |
| `Users.DuplicateEmailConflicts` | user-service/internal/handlers/user_handler.go:67-71 | after a successful create, a second create with the same email is refused as AlreadyExists and leaves the table as the first create left it |
| `Users.CreatedPasswordVerifies` | user-service/internal/handlers/user_handler.go:35-65 | with a sound hasher, the digest stored by a successful create verifies against the submitted password and is not the password itself |
| `Users.UpdatedPasswordVerifies` | user-service/internal/handlers/user_handler.go:85-107 | a successful update with a password stores a digest that verifies against it and is not the password; without one the stored digest stays |
| `Users.EmptyUpdateKeepsRow` | user-service/internal/handlers/user_handler.go:104-112 | an update of an existing id whose fields are all empty succeeds, changes nothing and returns the stored row |
| `Users.UpdateIdempotent` | user-service/internal/handlers/user_handler.go:101-126 | repeating a successful update with the same request under any hasher that can hash its password returns the same reply; with no new password the tables are unchanged, with one only the stored digest is replaced by the new hasher's digest, which verifies against the password when that hasher is sound |
| `Users.DeleteUserTwice` | user-service/internal/handlers/user_handler.go:142-157 | deleting an existing id succeeds, and deleting it again gives NotFound |
| `UserHandler.UserServerHandler.CreateUser` | user-service/internal/handlers/user_handler.go:23-80 | the step-by-step handler (role lookup, hash, insert) returns and leaves the tables exactly as `Users.CreateUser` says, and keeps the store's invariants |
| `UserHandler.UserServerHandler.UpdateUser` | user-service/internal/handlers/user_handler.go:82-139 | the step-by-step handler (optional hash, coalescing update) returns and leaves the table exactly as `Users.UpdateUser` says |
| `UserHandler.UserServerHandler.DeleteUser` | user-service/internal/handlers/user_handler.go:141-158 | the handler (delete, then affected-row count) returns and leaves the table exactly as `Users.DeleteUser` says |
| `Products.CreateProduct` | product-service/internal/handlers/product_handler.go:37-67 | a store error is returned unclassified and adds no row; otherwise exactly one row is added under a fresh positive id, holding all twelve request columns as given, and that id is returned |
| `Products.UpdateProduct` | product-service/internal/handlers/product_handler.go:69-126 | an exec failure gives Internal with the table unchanged; on an existing id all twelve columns are overwritten, updated_at becomes the clock, created_at and every other row stay; a missing id gives NotFound "product not found" with the table unchanged; an unreadable row count gives Internal (the row is updated all the same); success returns the request's id |
| `Products.DeleteProduct` | product-service/internal/handlers/product_handler.go:128-142 | an existing id loses exactly its row and is returned; every failure, a missing id included, is the store's raw error (never a status, so never NotFound) and leaves the table unchanged |
| `Products.Selected` | product-service/internal/handlers/product_handler.go:146-147 | soundness of the search: each selected row is in the table with its stored columns, is active and has the query in its name |
| `Products.SelectedComplete` | product-service/internal/handlers/product_handler.go:146-147 | completeness of the search: every active row reached by the scan whose name contains the query is selected |
| `Products.SelectedDistinct` | product-service/internal/handlers/product_handler.go:155-184 | when the scan reads each row once, the result has one entry per row |
| `Products.EmptyQuerySelectsActive` | product-service/internal/handlers/product_handler.go:146-147 | an empty query selects a row exactly when it is active |
| `Products.NoMatchSelectsNothing` | product-service/internal/handlers/product_handler.go:146-149 | a query that no active name contains gives an empty result |
| `Products.Search` | product-service/internal/handlers/product_handler.go:144-190 | the search with `rows.Err()` checked after the loop: it succeeds exactly when neither the query, nor the scan of a row, nor the stream (even after its last row) fails; on success the reply is sound and complete for the active, name-containing rows and holds no product twice; every failure is returned unclassified and carries no partial list |
| `Products.SearchAsWritten` | product-service/internal/handlers/product_handler.go:157-189 | the search exactly as the loop is written; a successful reply is always a prefix of the selected rows |
| `Products.AsWrittenAgreesWithoutBreak` | product-service/internal/handlers/product_handler.go:157-189 | the source's search and `Products.Search` agree whenever the row stream does not break off |
| `Products.StreamBreakTruncatesAsWritten` | product-service/internal/handlers/product_handler.go:157-184 | when the row stream breaks off after `at` rows, the source's search reports success with only those rows and so misses a matching active row; `Products.Search` reports the error |
| `Products.UpdateProductRoundTrip` | product-service/internal/handlers/product_handler.go:71-107 | after an update of an existing id, the row holds exactly the request's columns, keeps its creation time, has an update time later than before when the clock advanced, and no other row changes |
| `Products.DeleteProductTwice` | product-service/internal/handlers/product_handler.go:132-138 | deleting an existing product returns its id, and deleting it again gives the store's raw no-row error rather than NotFound |
| `ProductHandler.ProductServer.CreateProduct` | product-service/internal/handlers/product_handler.go:37-67 | the handler returns and leaves the table exactly as `Products.CreateProduct` says |
| `ProductHandler.ProductServer.UpdateProduct` | product-service/internal/handlers/product_handler.go:69-126 | the handler (update, then affected-row count) returns and leaves the table exactly as `Products.UpdateProduct` says |
| `ProductHandler.ProductServer.DeleteProduct` | product-service/internal/handlers/product_handler.go:128-142 | the handler returns and leaves the table exactly as `Products.DeleteProduct` says |
| `ProductHandler.ProductServer.GetAllProductsByQuery` | product-service/internal/handlers/product_handler.go:144-190 | the corrected handler of the finding below: the source's `rows.Next()` loop, appending each result row in order and aborting on a failed scan, plus a check of `rows.Err()` after the loop that the source does not have; its reply equals `Products.Search` (the source's own reply is `Products.SearchAsWritten`) |

## Left out

- Process start-up, listening, gRPC registration, `.env` loading and connection-pool settings are not part of this model (`user-service/cmd/app/main.go`, `user-service/databases/postgres.go`, `product-service/configs/pg_config.go`).
- Logging through `slog` and `log` is left out: it changes no reply or table.
- Request contexts, cancellation and concurrent requests are left out. Each handler call is one atomic step on the tables.
- bcrypt itself (cost factor, salt, algorithm) is the `Hasher` parameter. Sound hashers make the stored digest verify and differ from the plaintext. That a digest fails to verify against other passwords holds only with overwhelming probability, so it is not stated.
- Postgres error codes other than the unique violation 23505 are all `Driver`. The only unique constraint modelled is the one on users' email. The Go code reports any 23505 on insert as "email already exists".
- The id sequence advances only when a row is inserted. Postgres also uses up a value on a failed insert, and the gaps this leaves are not modelled. Ids are unbounded naturals, so 32-bit overflow of `uint32` ids is not modelled.
- The table schema is not part of the source. CreateProduct is assumed to stamp `created_at` and `updated_at` with the store's clock.
- `Products.Contains` treats the query literally, so it is modelled for queries free of `%`, `_` and `\`. In the store `%` and `_` act as LIKE wildcards and `\` is LIKE's default escape character; that is not modelled.
- float32 columns are kept as their 32-bit patterns and only copied. The int32 columns are unbounded integers, since they are only copied too.
- The `rows.Err()` check inside the search loop is not modelled. During iteration it can report only a context cancellation, and cancellation is left out.
- How gRPC turns an unclassified (`Raw`) error into a status code at the transport is not modelled.
- UpdateProduct's Internal messages include the driver's error text ("db error: ...", "rows affected error: ..."). The model keeps that text, as the code does, although a design goal of the services is not to echo raw storage errors to callers.

## Findings

| source | as written | input that shows it | evidently intended | confidence | as-written member | corrected member |
|---|---|---|---|---|---|---|
| product-service/internal/handlers/product_handler.go:157-189 | `rows.Err()` is checked only inside the loop, after each successful `Scan`; a stream error ends `rows.Next()`, the loop exits, and the rows read so far are returned with a nil error | two active products whose names contain the query, with the result stream breaking off after the first row: the reply is success with one product | check `rows.Err()` after the loop and fail the call, so that a successful reply is always the full result | medium (relies on the documented behaviour of Go's `database/sql` cursor), not executed | `Products.SearchAsWritten` | `Products.Search` |
