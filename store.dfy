/**
 * The storefront's request handlers, reduced to what they do to the tables
 * and to one browser's session. Rendering, redirects and flashed messages
 * are reduced to the `Outcome` each handler returns.
 */
module Storefront {
  import opened Text
  import opened Tables

  datatype Outcome =
    | Done                       // the handler's normal completion
    | LoginRequired              // no user id in the session
    | AccessDenied               // the session is not an admin's
    | NotFound                   // no product or user with that id
    | OutOfStock                 // checkout refused: stock is not positive
    | CheckoutReady              // checkout may go on to the payment provider
    | InventoryExhausted         // finalize found no unused key: "contact support"
    | KeyIssued(code: string)    // finalize sold the key with this code
    | KeyRetrieved(code: string) // the one-time popup read this code
    | NoKeyAvailable             // the popup found no code in the session
    | UserExists                 // registration refused: username or email taken
    | InvalidCredentials         // login refused
    | Dashboard(products: seq<Product>, users: seq<User>, purchases: seq<Purchase>)

  class Store {
    var users: seq<User>
    var products: seq<Product>
    var keys: seq<Key>
    var purchases: seq<Purchase>

    // The calling browser's session.
    var sessionUser: Option<nat>
    var sessionAdmin: bool
    var purchasedKey: Option<string>

    /**
     * The tables are consistent, a logged-in session names an existing
     * user, and a session carries the admin flag only for an admin.
     */
    ghost predicate Valid()
      reads this
    {
      && Consistent(users, products, keys, purchases)
      && (sessionUser.Some? ==> sessionUser.value < |users|)
      && (sessionAdmin ==> sessionUser.Some? && users[sessionUser.value].isAdmin)
    }

    /**
     * The admin gate every admin handler applies first. In a valid state it
     * admits only a session whose user is an admin.
     */
    predicate IsAdmin(): (b: bool)
      reads this
      ensures b && Valid() ==> sessionUser.Some? && sessionUser.value < |users| && users[sessionUser.value].isAdmin
    {
      sessionUser.Some? && sessionAdmin
    }

    constructor ()
      ensures Valid()
      ensures users == [] && products == [] && keys == [] && purchases == []
      ensures sessionUser == None && !sessionAdmin && purchasedKey == None
    {
      users, products, keys, purchases := [], [], [], [];
      sessionUser, sessionAdmin, purchasedKey := None, false, None;
    }

    /**
     * The checks before a payment session is requested. It changes nothing,
     * and when it lets checkout go on, finalizing right away would find a key.
     */
    method CreateCheckoutSession(productId: nat) returns (r: Outcome)
      requires Valid()
      ensures sessionUser.None? ==> r == LoginRequired
      ensures sessionUser.Some? && productId >= |products| ==> r == NotFound
      ensures sessionUser.Some? && productId < |products| && products[productId].stock <= 0 ==> r == OutOfStock
      ensures r == CheckoutReady <==>
                sessionUser.Some? && productId < |products| && FirstUnused(keys, productId, 0).Some?
    {
      if sessionUser.None? {
        return LoginRequired;
      }
      if productId >= |products| {
        return NotFound;
      }
      StockMeansAvailable(products, keys, productId);
      if products[productId].stock <= 0 {
        return OutOfStock;
      }
      r := CheckoutReady;
    }

    /**
     * The return from the payment provider. With no unused key nothing
     * changes. Otherwise exactly one unused key of the product becomes used,
     * the stock drops by one, one purchase naming the session's user, the
     * product and that key is appended, and the code is left in the session
     * for the popup. Sending the email happens after this and changes nothing.
     */
    method Success(productId: nat, transactionId: string) returns (r: Outcome)
      requires Valid()
      modifies this
      ensures Valid()
      ensures KeysEvolve(old(keys), keys) && old(purchases) <= purchases
      ensures old(sessionUser).None? ==> r == LoginRequired && unchanged(this)
      ensures old(sessionUser).Some? && productId >= old(|products|) ==> r == NotFound && unchanged(this)
      ensures old(sessionUser).Some? && productId < old(|products|) && FirstUnused(old(keys), productId, 0).None? ==>
                r == InventoryExhausted && unchanged(this)
      ensures old(sessionUser).Some? && productId < old(|products|) && FirstUnused(old(keys), productId, 0).Some? ==>
                var k := FirstUnused(old(keys), productId, 0).value;
                var code := old(keys)[k].code;
                && r == KeyIssued(code)
                && keys == old(keys)[k := old(keys)[k].(used := true)]
                && products == old(products)[productId := old(products)[productId].(stock := old(products)[productId].stock - 1)]
                && purchases == old(purchases) + [Purchase(old(sessionUser).value, productId, k, transactionId)]
                && users == old(users)
                && sessionUser == old(sessionUser) && sessionAdmin == old(sessionAdmin)
                && purchasedKey == Some(code)
    {
      if sessionUser.None? {
        return LoginRequired;
      }
      if productId >= |products| {
        return NotFound;
      }
      var user := sessionUser.value;
      var found := FirstUnused(keys, productId, 0);
      if found.None? {
        return InventoryExhausted;
      }
      var k := found.value;
      FinalizeKeepsConsistent(users, products, keys, purchases, user, productId, k, transactionId);
      keys := keys[k := keys[k].(used := true)];
      products := products[productId := products[productId].(stock := products[productId].stock - 1)];
      purchases := purchases + [Purchase(user, productId, k, transactionId)];
      purchasedKey := Some(keys[k].code);
      r := KeyIssued(keys[k].code);
    }

    /** The popup's read-once retrieval of the code left by `Success`. */
    method GetKey() returns (r: Outcome)
      requires Valid()
      modifies this`purchasedKey
      ensures Valid()
      ensures old(purchasedKey).Some? ==> r == KeyRetrieved(old(purchasedKey).value)
      ensures old(purchasedKey).None? ==> r == NoKeyAvailable
      ensures purchasedKey == None
    {
      if purchasedKey.Some? {
        r := KeyRetrieved(purchasedKey.value);
        purchasedKey := None;
      } else {
        r := NoKeyAvailable;
      }
    }

    /** Two retrievals in a row: the second always finds nothing. */
    method GetKeyTwice() returns (first: Outcome, second: Outcome)
      requires Valid()
      modifies this`purchasedKey
      ensures Valid()
      ensures old(purchasedKey).Some? ==> first == KeyRetrieved(old(purchasedKey).value)
      ensures second == NoKeyAvailable && purchasedKey == None
    {
      first := GetKey();
      second := GetKey();
    }

    /**
     * A username or email already in use leaves the user table as it was;
     * otherwise exactly one non-admin user is appended.
     */
    method Register(username: string, email: string, passwordHash: string) returns (r: Outcome)
      requires Valid()
      modifies this`users
      ensures Valid()
      ensures AccountTaken(old(users), username, email) ==> r == UserExists && users == old(users)
      ensures !AccountTaken(old(users), username, email) ==>
                r == Done && users == old(users) + [User(username, passwordHash, email, false)]
    {
      if AccountTaken(users, username, email) {
        return UserExists;
      }
      users := users + [User(username, passwordHash, email, false)];
      r := Done;
    }

    /**
     * `verify` stands for the password hash check. On success the session
     * records the user and their admin flag; otherwise nothing changes.
     */
    method Login(username: string, password: string, verify: (string, string) -> bool) returns (r: Outcome)
      requires Valid()
      modifies this`sessionUser, this`sessionAdmin
      ensures Valid()
      ensures var u := FirstUserNamed(users, username, 0);
              if u.Some? && verify(users[u.value].passwordHash, password) then
                r == Done && sessionUser == u && sessionAdmin == users[u.value].isAdmin
              else
                r == InvalidCredentials && sessionUser == old(sessionUser) && sessionAdmin == old(sessionAdmin)
    {
      var u := FirstUserNamed(users, username, 0);
      if u.Some? && verify(users[u.value].passwordHash, password) {
        sessionUser, sessionAdmin := u, users[u.value].isAdmin;
        r := Done;
      } else {
        r := InvalidCredentials;
      }
    }

    /** Clears the whole session, including a code the popup has not read. */
    method Logout()
      requires Valid()
      modifies this`sessionUser, this`sessionAdmin, this`purchasedKey
      ensures Valid()
      ensures sessionUser == None && !sessionAdmin && purchasedKey == None
    {
      sessionUser, sessionAdmin, purchasedKey := None, false, None;
    }

    /** The admin dashboard: a read of three tables, behind the gate. */
    method AdminDashboard() returns (r: Outcome)
      ensures !IsAdmin() ==> r == AccessDenied
      ensures IsAdmin() ==> r == Dashboard(products, users, purchases)
    {
      if !IsAdmin() {
        return AccessDenied;
      }
      r := Dashboard(products, users, purchases);
    }

    /** A new product starts with stock 0 and no keys. */
    method AddProduct(name: string, description: string, price: Price) returns (r: Outcome)
      requires Valid()
      modifies this`products
      ensures Valid()
      ensures !old(IsAdmin()) ==> r == AccessDenied && products == old(products)
      ensures old(IsAdmin()) ==> r == Done && products == old(products) + [Product(name, description, price, 0)]
    {
      if !IsAdmin() {
        return AccessDenied;
      }
      var p := |products|;
      CountUnusedZero(keys, p);
      products := products + [Product(name, description, price, 0)];
      r := Done;
    }

    /**
     * Imports the rows of an uploaded key file into product `productId`:
     * the key table becomes `Imported` of the old one, and the product's
     * stock rises by the number of keys added. Nothing else changes.
     */
    method UploadKeys(productId: nat, rows: seq<seq<string>>) returns (r: Outcome)
      requires Valid()
      modifies this`products, this`keys
      ensures Valid()
      ensures KeysEvolve(old(keys), keys)
      ensures !old(IsAdmin()) ==> r == AccessDenied && keys == old(keys) && products == old(products)
      ensures old(IsAdmin()) && productId >= old(|products|) ==> r == NotFound && keys == old(keys) && products == old(products)
      ensures old(IsAdmin()) && productId < old(|products|) ==>
                && r == Done
                && keys == Imported(old(keys), productId, rows)
                && products == old(products)[productId := old(products)[productId].(
                                 stock := old(products)[productId].stock + |keys| - |old(keys)|)]
    {
      if !IsAdmin() {
        return AccessDenied;
      }
      if productId >= |products| {
        return NotFound;
      }
      var ks, product := ImportRows(productId, rows);
      ImportKeepsConsistent(users, products, keys, purchases, productId, rows);
      keys, products := ks, products[productId := product];
      r := Done;
    }

    /**
     * The loop over the rows of the file, run against the product row and
     * the key table as the session sees them: each non-empty row whose
     * stripped first field is not yet a code of any key (counting the keys
     * added by earlier rows) adds an unused key and raises the stock by one.
     * It returns the key table and the product row that the commit writes.
     */
    method ImportRows(productId: nat, rows: seq<seq<string>>) returns (ks: seq<Key>, product: Product)
      requires productId < |products|
      ensures ks == Imported(keys, productId, rows)
      ensures product == products[productId].(stock := products[productId].stock + |ks| - |keys|)
    {
      ks, product := keys, products[productId];
      var i := 0;
      while i < |rows|
        invariant 0 <= i <= |rows|
        invariant ks == Imported(keys, productId, rows[..i])
        invariant product == products[productId].(stock := products[productId].stock + |ks| - |keys|)
      {
        var row := rows[i];
        ImportedStep(keys, productId, rows, i);
        if row != [] {
          var code := Strip(row[0]);
          if !CodeExists(ks, code) {
            ks := ks + [Key(productId, code, false)];
            product := product.(stock := product.stock + 1);
          }
        }
        i := i + 1;
      }
      assert rows[..|rows|] == rows;
    }

    /** Overwrites a product's name, description and price; its stock stays. */
    method EditProduct(productId: nat, name: string, description: string, price: Price) returns (r: Outcome)
      requires Valid()
      modifies this`products
      ensures Valid()
      ensures !old(IsAdmin()) ==> r == AccessDenied && products == old(products)
      ensures old(IsAdmin()) && productId >= |old(products)| ==> r == NotFound && products == old(products)
      ensures old(IsAdmin()) && productId < |old(products)| ==>
                r == Done && products == old(products)[productId := old(products)[productId].(
                                           name := name, description := description, price := price)]
    {
      if !IsAdmin() {
        return AccessDenied;
      }
      if productId >= |products| {
        return NotFound;
      }
      products := products[productId := products[productId].(name := name, description := description, price := price)];
      r := Done;
    }

    /** Sets a user's admin flag; nothing else about the user changes. */
    method MakeAdmin(userId: nat) returns (r: Outcome)
      requires Valid()
      modifies this`users
      ensures Valid()
      ensures !old(IsAdmin()) ==> r == AccessDenied && users == old(users)
      ensures old(IsAdmin()) && userId >= |old(users)| ==> r == NotFound && users == old(users)
      ensures old(IsAdmin()) && userId < |old(users)| ==>
                r == Done && users == old(users)[userId := old(users)[userId].(isAdmin := true)]
    {
      if !IsAdmin() {
        return AccessDenied;
      }
      if userId >= |users| {
        return NotFound;
      }
      users := users[userId := users[userId].(isAdmin := true)];
      r := Done;
    }
  }
}
