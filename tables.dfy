/**
 * The four tables of the store (users, products, keys, purchases) as
 * sequences of rows, the queries the routes run against them, the
 * consistency the routes keep, and the lemmas that the two updates which
 * touch the key inventory (finalizing a purchase, importing a key file)
 * keep it.
 *
 * A row's id is its position in its table. Rows are only appended or
 * updated in place, never removed, so positions are stable.
 */
module Tables {
  import opened Text

  datatype Option<T> = None | Some(value: T)

  /** `passwordHash` is whatever the password hashing library produced. */
  datatype User = User(username: string, passwordHash: string, email: string, isAdmin: bool)

  /** The submitted price, kept uninterpreted (the store holds it as a float). */
  datatype Price = Price(text: string)

  datatype Product = Product(name: string, description: string, price: Price, stock: int)

  datatype Key = Key(productId: nat, code: string, used: bool)

  datatype Purchase = Purchase(userId: nat, productId: nat, keyId: nat, transactionId: string)

  // ---------------------------------------------------------------- queries

  /** A key that can still be sold for product `p`. */
  predicate Unused(k: Key, p: nat) {
    k.productId == p && !k.used
  }

  /**
   * The query "an unused key of product `p`", answered with the first such
   * key at or after position `from` in table order.
   */
  function FirstUnused(keys: seq<Key>, p: nat, from: nat): (r: Option<nat>)
    requires from <= |keys|
    ensures r.Some? ==> from <= r.value < |keys| && Unused(keys[r.value], p)
                        && forall j :: from <= j < r.value ==> !Unused(keys[j], p)
    ensures r.None? ==> forall j :: from <= j < |keys| ==> !Unused(keys[j], p)
    decreases |keys| - from
  {
    if from == |keys| then None
    else if Unused(keys[from], p) then Some(from)
    else FirstUnused(keys, p, from + 1)
  }

  /** The query "a key whose code is `code`", over every product. */
  predicate CodeExists(keys: seq<Key>, code: string) {
    exists i :: 0 <= i < |keys| && keys[i].code == code
  }

  /** The query "a user named `name`", answered with the first in table order. */
  function FirstUserNamed(users: seq<User>, name: string, from: nat): (r: Option<nat>)
    requires from <= |users|
    ensures r.Some? ==> from <= r.value < |users| && users[r.value].username == name
                        && forall j :: from <= j < r.value ==> users[j].username != name
    ensures r.None? ==> forall j :: from <= j < |users| ==> users[j].username != name
    decreases |users| - from
  {
    if from == |users| then None
    else if users[from].username == name then Some(from)
    else FirstUserNamed(users, name, from + 1)
  }

  /** Registration's check: some user already has this username or this email. */
  predicate AccountTaken(users: seq<User>, username: string, email: string) {
    exists i :: 0 <= i < |users| && (users[i].username == username || users[i].email == email)
  }

  // ----------------------------------------------------------- consistency

  /** The number of unused keys of product `p`. */
  function CountUnused(keys: seq<Key>, p: nat): nat {
    if keys == [] then 0
    else CountUnused(keys[..|keys| - 1], p) + (if Unused(keys[|keys| - 1], p) then 1 else 0)
  }

  /** Every product's stock counter equals its number of unused keys. */
  ghost predicate StockConsistent(products: seq<Product>, keys: seq<Key>) {
    forall p :: 0 <= p < |products| ==> products[p].stock == CountUnused(keys, p)
  }

  /** No two keys share a code, whichever products they belong to. */
  ghost predicate UniqueCodes(keys: seq<Key>) {
    forall i, j :: 0 <= i < j < |keys| ==> keys[i].code != keys[j].code
  }

  ghost predicate KeysReferToProducts(keys: seq<Key>, productCount: nat) {
    forall i :: 0 <= i < |keys| ==> keys[i].productId < productCount
  }

  /** Usernames are unique and emails are unique. */
  ghost predicate UniqueAccounts(users: seq<User>) {
    forall i, j :: 0 <= i < j < |users| ==>
      users[i].username != users[j].username && users[i].email != users[j].email
  }

  /** Some purchase records the sale of key `k`. */
  ghost predicate Purchased(purchases: seq<Purchase>, k: nat) {
    exists j :: 0 <= j < |purchases| && purchases[j].keyId == k
  }

  /**
   * Every purchase names an existing user, product and key, the key is used
   * and belongs to that product; no two purchases name the same key; and a
   * key is used exactly when some purchase names it.
   */
  ghost predicate LedgerConsistent(userCount: nat, productCount: nat, keys: seq<Key>, purchases: seq<Purchase>) {
    && (forall j :: 0 <= j < |purchases| ==>
          && purchases[j].userId < userCount
          && purchases[j].productId < productCount
          && purchases[j].keyId < |keys|
          && keys[purchases[j].keyId].used
          && keys[purchases[j].keyId].productId == purchases[j].productId)
    && (forall i, j :: 0 <= i < j < |purchases| ==> purchases[i].keyId != purchases[j].keyId)
    && (forall k :: 0 <= k < |keys| ==> (keys[k].used <==> Purchased(purchases, k)))
  }

  ghost predicate Consistent(users: seq<User>, products: seq<Product>, keys: seq<Key>, purchases: seq<Purchase>) {
    && UniqueAccounts(users)
    && KeysReferToProducts(keys, |products|)
    && UniqueCodes(keys)
    && StockConsistent(products, keys)
    && LedgerConsistent(|users|, |products|, keys, purchases)
  }

  /**
   * What may happen to the key table between two moments: keys may be
   * added, existing keys keep their product and code, and a used key stays
   * used.
   */
  ghost predicate KeysEvolve(before: seq<Key>, after: seq<Key>) {
    && |before| <= |after|
    && forall k :: 0 <= k < |before| ==>
         && after[k].productId == before[k].productId
         && after[k].code == before[k].code
         && (before[k].used ==> after[k].used)
  }

  // ------------------------------------------------------- unused-key count

  lemma {:induction false} CountUnusedZero(keys: seq<Key>, p: nat)
    ensures CountUnused(keys, p) == 0 <==> forall i :: 0 <= i < |keys| ==> !Unused(keys[i], p)
  {
    if keys != [] {
      var n := |keys| - 1;
      CountUnusedZero(keys[..n], p);
      assert forall i :: 0 <= i < n ==> keys[..n][i] == keys[i];
    }
  }

  lemma CountUnusedAppend(keys: seq<Key>, k: Key, p: nat)
    ensures CountUnused(keys + [k], p) == CountUnused(keys, p) + (if Unused(k, p) then 1 else 0)
  {
    assert (keys + [k])[..|keys|] == keys;
  }

  /** Marking one unused key used lowers its own product's count by one and no other. */
  lemma {:induction false} CountUnusedClaim(keys: seq<Key>, i: nat, p: nat)
    requires i < |keys| && !keys[i].used
    ensures CountUnused(keys[i := keys[i].(used := true)], p)
            == CountUnused(keys, p) - (if keys[i].productId == p then 1 else 0)
  {
    var n := |keys| - 1;
    var claimed := keys[i := keys[i].(used := true)];
    if i == n {
      assert claimed[..n] == keys[..n];
    } else {
      assert claimed[..n] == keys[..n][i := keys[i].(used := true)];
      CountUnusedClaim(keys[..n], i, p);
    }
  }

  /**
   * With consistent stock, a product's stock is never negative, and it is
   * positive exactly when the unused-key query finds a key.
   */
  lemma StockMeansAvailable(products: seq<Product>, keys: seq<Key>, p: nat)
    requires StockConsistent(products, keys) && p < |products|
    ensures products[p].stock >= 0
    ensures products[p].stock > 0 <==> FirstUnused(keys, p, 0).Some?
  {
    CountUnusedZero(keys, p);
  }

  // --------------------------------------------------------------- finalize

  /** Claiming an unused key of `p` and decrementing `p`'s stock keeps stock consistent. */
  lemma ClaimKeepsStockConsistent(products: seq<Product>, keys: seq<Key>, p: nat, k: nat)
    requires StockConsistent(products, keys)
    requires p < |products| && k < |keys| && Unused(keys[k], p)
    ensures StockConsistent(products[p := products[p].(stock := products[p].stock - 1)],
                            keys[k := keys[k].(used := true)])
  {
    forall q | 0 <= q < |products| {
      CountUnusedClaim(keys, k, q);
    }
  }

  /**
   * Finalizing a purchase (claim an unused key `k` of `p`, whichever one the
   * key query returns, decrement the stock, append a purchase naming user
   * `u`, `p` and that key) keeps every table consistent.
   */
  lemma FinalizeKeepsConsistent(users: seq<User>, products: seq<Product>, keys: seq<Key>,
                                purchases: seq<Purchase>, u: nat, p: nat, k: nat, tx: string)
    requires Consistent(users, products, keys, purchases)
    requires u < |users| && p < |products| && k < |keys| && Unused(keys[k], p)
    ensures Consistent(users,
                       products[p := products[p].(stock := products[p].stock - 1)],
                       keys[k := keys[k].(used := true)],
                       purchases + [Purchase(u, p, k, tx)])
  {
    var keys' := keys[k := keys[k].(used := true)];
    var purchases' := purchases + [Purchase(u, p, k, tx)];
    ClaimKeepsStockConsistent(products, keys, p, k);
    forall j | 0 <= j < |purchases|
      ensures purchases[j].keyId != k
    {
      assert keys[purchases[j].keyId].used;
    }
    forall i | 0 <= i < |keys'|
      ensures keys'[i].used <==> Purchased(purchases', i)
    {
      if i == k {
        assert purchases'[|purchases|].keyId == k;
      } else if keys[i].used {
        var j :| 0 <= j < |purchases| && purchases[j].keyId == i;
        assert purchases'[j].keyId == i;
      } else {
        assert !Purchased(purchases, i);
      }
    }
  }

  // ----------------------------------------------------------------- import

  /**
   * One row of an uploaded key file for product `p`: an empty row is
   * skipped; otherwise the stripped first field becomes a new unused key of
   * `p`, unless some key of any product already has that code.
   */
  function ImportRow(keys: seq<Key>, p: nat, row: seq<string>): seq<Key> {
    if row == [] then keys
    else if CodeExists(keys, Strip(row[0])) then keys
    else keys + [Key(p, Strip(row[0]), false)]
  }

  /**
   * The key table after importing `rows` in order. Each row sees the keys
   * the rows before it inserted.
   */
  function Imported(keys: seq<Key>, p: nat, rows: seq<seq<string>>): seq<Key>
    decreases |rows|
  {
    if rows == [] then keys
    else ImportRow(Imported(keys, p, rows[..|rows| - 1]), p, rows[|rows| - 1])
  }

  /**
   * One row keeps the table as a prefix and adds at most one key: an unused
   * key of `p` with the row's stripped first field, a code no key had.
   */
  lemma ImportRowExtends(keys: seq<Key>, p: nat, row: seq<string>)
    ensures var r := ImportRow(keys, p, row);
            && |keys| <= |r| <= |keys| + 1 && r[..|keys|] == keys
            && (|r| > |keys| ==> row != [] && r[|keys|] == Key(p, Strip(row[0]), false)
                                 && !CodeExists(keys, Strip(row[0])))
  {
  }

  /** An import keeps the old table as a prefix and adds only unused keys of `p`. */
  lemma {:induction false} ImportExtends(keys: seq<Key>, p: nat, rows: seq<seq<string>>)
    ensures |keys| <= |Imported(keys, p, rows)| && Imported(keys, p, rows)[..|keys|] == keys
    ensures forall i :: |keys| <= i < |Imported(keys, p, rows)| ==>
              Imported(keys, p, rows)[i].productId == p && !Imported(keys, p, rows)[i].used
  {
    if rows != [] {
      var prev := Imported(keys, p, rows[..|rows| - 1]);
      ImportExtends(keys, p, rows[..|rows| - 1]);
      ImportRowExtends(prev, p, rows[|rows| - 1]);
      assert Imported(keys, p, rows)[..|prev|] == prev;
    }
  }

  /**
   * `Imported` unfolded at a prefix of the rows: importing one more row is
   * one more `ImportRow` on the result so far. This is the stepping fact the
   * upload loop needs, not a further property of the import.
   */
  lemma ImportedStep(keys: seq<Key>, p: nat, rows: seq<seq<string>>, i: nat)
    requires i < |rows|
    ensures Imported(keys, p, rows[..i + 1]) == ImportRow(Imported(keys, p, rows[..i]), p, rows[i])
  {
    assert rows[..i + 1][..i] == rows[..i];
  }

  lemma CodeExistsExtends(keys: seq<Key>, keys': seq<Key>, code: string)
    requires |keys| <= |keys'| && keys'[..|keys|] == keys
    ensures CodeExists(keys, code) ==> CodeExists(keys', code)
  {
    if CodeExists(keys, code) {
      var i :| 0 <= i < |keys| && keys[i].code == code;
      assert keys'[i] == keys[i];
    }
  }

  /** Import never introduces a second key with an existing code. */
  lemma {:induction false} ImportKeepsCodesUnique(keys: seq<Key>, p: nat, rows: seq<seq<string>>)
    requires UniqueCodes(keys)
    ensures UniqueCodes(Imported(keys, p, rows))
  {
    if rows != [] {
      ImportKeepsCodesUnique(keys, p, rows[..|rows| - 1]);
      ImportRowExtends(Imported(keys, p, rows[..|rows| - 1]), p, rows[|rows| - 1]);
    }
  }

  /** After an import, the stripped first field of every non-empty row is a key code. */
  lemma {:induction false} ImportCoversRows(keys: seq<Key>, p: nat, rows: seq<seq<string>>)
    ensures forall j :: 0 <= j < |rows| && rows[j] != [] ==>
              CodeExists(Imported(keys, p, rows), Strip(rows[j][0]))
  {
    if rows != [] {
      var n := |rows| - 1;
      var prev := Imported(keys, p, rows[..n]);
      var r := Imported(keys, p, rows);
      ImportCoversRows(keys, p, rows[..n]);
      ImportRowExtends(prev, p, rows[n]);
      forall j | 0 <= j < |rows| && rows[j] != []
        ensures CodeExists(r, Strip(rows[j][0]))
      {
        if j < n {
          assert rows[..n][j] == rows[j];
          CodeExistsExtends(prev, r, Strip(rows[j][0]));
        } else if !CodeExists(prev, Strip(rows[j][0])) {
          assert r[|prev|].code == Strip(rows[j][0]);
        }
      }
    }
  }

  /** Importing rows whose codes all exist already changes nothing. */
  lemma {:induction false} ImportSkipsKnownCodes(keys: seq<Key>, p: nat, rows: seq<seq<string>>)
    requires forall j :: 0 <= j < |rows| && rows[j] != [] ==> CodeExists(keys, Strip(rows[j][0]))
    ensures Imported(keys, p, rows) == keys
  {
    if rows != [] {
      var n := |rows| - 1;
      assert forall j :: 0 <= j < n ==> rows[..n][j] == rows[j];
      ImportSkipsKnownCodes(keys, p, rows[..n]);
    }
  }

  /** Uploading the same file a second time is a no-op. */
  lemma ImportIdempotent(keys: seq<Key>, p: nat, rows: seq<seq<string>>)
    ensures Imported(Imported(keys, p, rows), p, rows) == Imported(keys, p, rows)
  {
    ImportCoversRows(keys, p, rows);
    ImportSkipsKnownCodes(Imported(keys, p, rows), p, rows);
  }

  /**
   * Every key an import adds has a code that no key had before, taken from
   * the stripped first field of some non-empty row.
   */
  lemma {:induction false} ImportAddsOnlyNewRowCodes(keys: seq<Key>, p: nat, rows: seq<seq<string>>)
    ensures forall i :: |keys| <= i < |Imported(keys, p, rows)| ==>
              && !CodeExists(keys, Imported(keys, p, rows)[i].code)
              && exists j :: 0 <= j < |rows| && rows[j] != [] && Imported(keys, p, rows)[i].code == Strip(rows[j][0])
  {
    if rows != [] {
      var n := |rows| - 1;
      var prev := Imported(keys, p, rows[..n]);
      var r := Imported(keys, p, rows);
      ImportAddsOnlyNewRowCodes(keys, p, rows[..n]);
      ImportExtends(keys, p, rows[..n]);
      ImportRowExtends(prev, p, rows[n]);
      assert forall i :: |keys| <= i < |prev| ==> !CodeExists(keys, prev[i].code);
      forall i | |keys| <= i < |r|
        ensures !CodeExists(keys, r[i].code)
        ensures exists j :: 0 <= j < |rows| && rows[j] != [] && r[i].code == Strip(rows[j][0])
      {
        if i < |prev| {
          assert r[i] == prev[i];
          var j :| 0 <= j < |rows[..n]| && rows[..n][j] != [] && prev[i].code == Strip(rows[..n][j][0]);
          assert rows[..n][j] == rows[j];
        } else {
          assert r[i].code == Strip(rows[n][0]) && !CodeExists(prev, r[i].code);
          CodeExistsExtends(keys, prev, r[i].code);
        }
      }
    }
  }

  /**
   * Importing into product `p` and raising `p`'s stock by the number of keys
   * added keeps stock consistent.
   */
  lemma {:induction false} ImportKeepsStockConsistent(products: seq<Product>, keys: seq<Key>,
                                                      p: nat, rows: seq<seq<string>>)
    requires StockConsistent(products, keys) && p < |products|
    ensures var r := Imported(keys, p, rows);
            StockConsistent(products[p := products[p].(stock := products[p].stock + |r| - |keys|)], r)
  {
    if rows != [] {
      var n := |rows| - 1;
      var prev := Imported(keys, p, rows[..n]);
      ImportKeepsStockConsistent(products, keys, p, rows[..n]);
      ImportRowExtends(prev, p, rows[n]);
      if Imported(keys, p, rows) != prev {
        var k := Key(p, Strip(rows[n][0]), false);
        forall q | 0 <= q < |products| {
          CountUnusedAppend(prev, k, q);
        }
      }
    }
  }

  /** An import into an existing product keeps every table consistent. */
  lemma ImportKeepsConsistent(users: seq<User>, products: seq<Product>, keys: seq<Key>,
                              purchases: seq<Purchase>, p: nat, rows: seq<seq<string>>)
    requires Consistent(users, products, keys, purchases) && p < |products|
    ensures var r := Imported(keys, p, rows);
            && KeysEvolve(keys, r)
            && Consistent(users,
                          products[p := products[p].(stock := products[p].stock + |r| - |keys|)],
                          r, purchases)
  {
    var r := Imported(keys, p, rows);
    ImportExtends(keys, p, rows);
    ImportKeepsCodesUnique(keys, p, rows);
    ImportKeepsStockConsistent(products, keys, p, rows);
    assert forall i :: 0 <= i < |keys| ==> r[i] == keys[i];
  }
}
