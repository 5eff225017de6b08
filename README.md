# CD key store: a Dafny model of the storefront's transactional core

The storefront sells license keys for digital products. Users register and
log in. An admin creates products and uploads files of key codes. A
customer starts a checkout; when the payment provider redirects back, the
store claims one unused key of the product, lowers the product's stock by
one and records a purchase; the key code is then shown once in a popup and
mailed to the customer.

This project models the state behind those handlers. The class
`Storefront.Store` holds the four database tables (users, products, keys,
purchases) as sequences of rows, plus one browser's session: the logged-in
user, the admin flag copied at login, and the purchased key waiting for the
popup. Each handler becomes a method that changes these fields the way the
handler's database code does. It returns an `Outcome` that stands for the
handler's redirect, flashed message or JSON reply.

What is proved:

- `Store.Valid()` is kept by every method. It holds that:
  - stock equals the number of unused keys, for every product;
  - key codes are unique across all products;
  - every key belongs to an existing product;
  - usernames are unique, and so are emails;
  - every purchase names an existing user, product and key, and that key
    is used and belongs to that product;
  - no two purchases name the same key;
  - a key is used exactly when some purchase names it;
  - a session's user exists, and the session's admin flag is set only for
    an admin.
- Each method's postcondition gives its complete effect, including that
  nothing changes on every refusal path.
- The pure lemmas in module `Tables` prove the consistency facts above for
  finalizing a purchase and for importing a key file. They also give the
  import's contract: it covers every row, it adds only new codes taken from
  the rows, known codes are skipped, and uploading the same file twice
  changes nothing the second time.

Modelling choices:

- A row's id is its position in its table (the database uses
  auto-increment ids). The model never deletes a row, so positions stay
  fixed.
- The key query has no `ORDER BY` and returns one unused key of the
  product. The model takes the first unused key in table order
  (`Tables.FirstUnused`). The consistency lemmas hold for whichever unused
  key is chosen.
- The duplicate check during an upload sees the keys that earlier rows of
  the same file inserted. This relies on the database session's autoflush
  (on by default), which sends pending inserts before each query. The model
  checks against the whole key table, including keys already added in the
  same upload.
- The upload loop adds keys to the database session and raises the
  product's stock on the loaded row; both reach the tables at the single
  commit (app.py:269). `Store.ImportRows` runs the loop on the key table
  and product row it reads and returns the results, and `UploadKeys`
  writes both at once.
- A row whose first field is all whitespace yields the empty code. The
  source inserts it like any other code (only a row with no fields is
  skipped), and so does the model.
- `strip()` is Python's `str.strip()` with no argument: it removes the
  characters for which `str.isspace()` holds (`Text.IsSpace`).
- Password hashing is a library call. `Register` takes the finished hash
  as a parameter, since the hash is salted at random. `Login` takes the
  hash check as a function parameter `verify`.
- The purchase's transaction id is a random UUID. `Success` takes it as a
  parameter.
- The price is a float. It is kept as an opaque `Price` value that
  `AddProduct` and `EditProduct` store and nothing reads.
- Sending the key by email comes after the commit and changes no table or
  session field. The model treats it as a no-op that succeeds.
- The handler reads the uploaded file with `csv.reader` and strips the
  first field of each row. The model takes the parsed rows.
- No cascade from products to keys is declared (app.py:52), so deleting a
  product is not modelled; see Left out.
- `upload_keys` returns no count, only a redirect. The model returns `Done`;
  the number of keys added is the growth of the key table, which is also
  how much the stock rose.

## Model

| member | source | states |
|---|---|---|
| `Text.IsSpace` | app.py:264 | the characters `strip()` removes: exactly those for which Python's `str.isspace()` holds |
| `Text.Strip` | app.py:264 | the stripped code is a slice of the field that neither starts nor ends with whitespace; only whitespace is cut off either side; an all-whitespace field gives the empty code; a field with nothing to strip is returned unchanged |
| `Tables.FirstUnused` | app.py:143-144 | finds a key of the product that is not used (the first such in table order), or reports that the product has no unused key |
| `Tables.CodeExists` | app.py:265 | the duplicate query: some key of any product already has this code |
| `Tables.AccountTaken` | app.py:179 | the registration check: some user already has this username or this email |
| `Tables.FirstUserNamed` | app.py:196 | finds the user with the given username, or reports that there is none |
| `Tables.CountUnusedZero` | app.py:48-54 | a product's unused-key count is zero exactly when the product has no unused key |
| `Tables.CountUnusedClaim` | app.py:148-149 | marking one unused key used lowers its own product's unused count by one and leaves every other product's count unchanged |
| `Tables.StockMeansAvailable` | app.py:106-108 | with stock consistent, stock is never negative, and it is positive exactly when the key query at finalize finds a key, so the checkout pre-check and finalize agree |
| `Tables.ClaimKeepsStockConsistent` | app.py:148-149 | claiming an unused key of a product and decrementing that product's stock keeps stock equal to the unused-key count for every product |
| `Tables.FinalizeKeepsConsistent` | app.py:143-153 | a finalize that claims any unused key of the product keeps all invariants: stock counts, unique codes, valid references, one purchase per used key and no key bought twice |
| `Tables.ImportRow` | app.py:263-268 | the loop body: a row with no fields adds nothing; otherwise its stripped first field becomes a new unused key of the product unless some key already has that code |
| `Tables.Imported` | app.py:262-268 | the loop: the rows are imported one by one in file order, each seeing the keys the earlier rows added |
| `Tables.ImportRowExtends` | app.py:263-268 | one row adds at most one key; an added key is unused, belongs to the product, has the row's stripped first field as its code, and that code was not in the table |
| `Tables.ImportExtends` | app.py:262-268 | an import keeps the old key table as a prefix and adds only unused keys of the target product |
| `Tables.ImportedStep` | app.py:262-264 | a stepping helper for the `ImportRows` loop, not a further property: `Imported` unfolded at a prefix, so one more row is one more `ImportRow` on the result so far |
| `Tables.ImportKeepsCodesUnique` | app.py:265 | an import never creates a second key with an existing code, in any product |
| `Tables.ImportCoversRows` | app.py:262-268 | after an import, the stripped first field of every non-empty row is the code of some key |
| `Tables.ImportSkipsKnownCodes` | app.py:265 | if every non-empty row's code already exists, the import adds nothing |
| `Tables.ImportIdempotent` | app.py:262-268 | uploading the same file a second time adds no key |
| `Tables.ImportAddsOnlyNewRowCodes` | app.py:263-267 | every key an import adds has a code no earlier key had, taken from the stripped first field of some non-empty row |
| `Tables.ImportKeepsStockConsistent` | app.py:266-268 | raising the product's stock by the number of keys added keeps stock equal to the unused-key count for every product |
| `Tables.ImportKeepsConsistent` | app.py:262-269 | an import into an existing product keeps all invariants, and keys keep their product and code and stay used once used |
| `Storefront.Store.IsAdmin` | app.py:213 | the admin gate (also app.py:225, 242, 278, 307): a logged-in session with the admin flag; in a valid state it admits only a session whose user is an admin |
| `Storefront.Store.constructor` | app.py:36-61 | the four tables start empty and the session holds nothing |
| `Storefront.Store.CreateCheckoutSession` | app.py:99-108 | no login gives LoginRequired, an unknown product gives NotFound, stock of 0 or less gives OutOfStock; checkout may go on exactly when the user is logged in and the product has an unused key; nothing changes |
| `Storefront.Store.Success` | app.py:134-160 | refusals (no login, unknown product, no unused key) change nothing; otherwise exactly one unused key of the product becomes used, the stock drops by one, exactly one purchase naming the session's user, the product, that key and the transaction id is appended, the code is left in the session, and nothing else changes |
| `Storefront.Store.GetKey` | app.py:163-169 | returns the code waiting in the session and removes it; with no code waiting it returns NoKeyAvailable |
| `Storefront.Store.GetKeyTwice` | app.py:165-169 | of two retrievals in a row the second always returns NoKeyAvailable |
| `Storefront.Store.Register` | app.py:172-187 | a username or email already in use gives UserExists and leaves the user table unchanged; otherwise exactly one user, not an admin, is appended |
| `Storefront.Store.Login` | app.py:191-202 | when the named user exists and the password checks, the session records that user and their admin flag; otherwise the session is unchanged |
| `Storefront.Store.Logout` | app.py:205-208 | the session ends with no user, no admin flag and no waiting code |
| `Storefront.Store.AdminDashboard` | app.py:211-220 | a non-admin session gets AccessDenied; an admin gets the products, users and purchases; nothing changes |
| `Storefront.Store.AddProduct` | app.py:223-236 | a non-admin session changes nothing; an admin appends one product with stock 0 |
| `Storefront.Store.UploadKeys` | app.py:240-272 | a non-admin session or an unknown product changes nothing; otherwise the key table becomes the import of the rows, the product's stock rises by the number of keys added, and no other product changes |
| `Storefront.Store.ImportRows` | app.py:260-268 | the loop over the rows builds exactly the import of the rows and the product row with its stock raised once per key added; it returns them for the commit and changes nothing itself |
| `Storefront.Store.EditProduct` | app.py:276-289 | a non-admin session or an unknown product changes nothing; otherwise the product's name, description and price are overwritten and its stock is kept |
| `Storefront.Store.MakeAdmin` | app.py:305-314 | a non-admin session or an unknown user changes nothing; otherwise that user's admin flag is set and nothing else about them changes |

## Left out

- The payment provider's checkout session (app.py:110-131) is an external
  service. `CreateCheckoutSession` stops at the decision to call it.
- Sending the key by email (app.py:68-82, 156) is SMTP I/O. If sending
  fails after the commit, the code is never stored in the session. The
  model does not capture that path.
- `delete_product` (app.py:293-302) is not modelled. The code declares no
  cascade from products to keys or purchases. Whether deleting a product
  with keys fails or leaves orphaned keys depends on the database.
- The store page and product page (app.py:87-96) only read and render.
- The file handling of `upload_keys` is not modelled: the missing or
  unnamed file checks, the `.csv` name check, saving the file, `csv.reader`
  and removing the file (app.py:248-260, 270). The model takes the parsed
  rows.
- The GET branches that render forms (app.py:188, 202, 237, 273, 290)
  change nothing.
- Flask plumbing (rendering, redirects, `flash`, `jsonify`) becomes the
  `Outcome` tag.
- Converting the price with `float()` (app.py:231, 286) and the
  minor-unit amount (app.py:117) are floating point; a non-numeric price
  raises in the source and is not modelled.
- Column length limits (`String(80)`, `String(50)` and so on, app.py:38-61)
  depend on the database.
- Commit semantics, the concurrent-finalize race and one session per
  browser are not modelled: the model is one request at a time against one
  session.
- App configuration, table creation and startup (app.py:16-33, 63-65,
  317-319).
