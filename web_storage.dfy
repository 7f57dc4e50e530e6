/**
 * The browser's Storage objects (`localStorage`, `sessionStorage`) that
 * storage.ts and auth.ts read and write: string keys in the order they were
 * first set, each holding one stored text.
 *
 * Stored texts are kept as the documents they encode: the JSON envelope that
 * `LocalStorage.set` writes, the JSON of a user record that `setCurrentUser`
 * writes, or raw text that is not JSON.
 */
module WebStorage {
  import opened Wrappers
  import opened Schema
  import opened Unique

  /** The values the app stores through `LocalStorage.set` (integer numbers only). */
  datatype Json = Null | Bool(b: bool) | Num(n: int) | Str(s: string)

  datatype Stored =
    | Envelope(value: Json, timestamp: int, expire: Option<int>)
    | UserDoc(user: User)
    | Raw(text: string)

  /** JavaScript truthiness of `getItem`'s result: present and not the empty string. */
  predicate Truthy(item: Option<Stored>) {
    item.Some? && item.value != Raw("")
  }

  /** Where `setItem(k, _)` leaves the key order: a new key goes last, a present one keeps its place. */
  function Appended(keys: seq<string>, k: string): (r: seq<string>)
    ensures forall x :: x in r <==> x in keys || x == k
    ensures keys <= r && |r| <= |keys| + 1
  {
    if k in keys then keys else keys + [k]
  }

  class Store {
    /** The keys as `key(0) .. key(length - 1)` enumerate them. */
    var keys: seq<string>
    var items: map<string, Stored>

    ghost predicate Valid()
      reads this
    {
      Distinct(keys) && forall k :: k in items <==> k in keys
    }

    constructor ()
      ensures Valid() && keys == [] && items == map[]
    {
      keys := [];
      items := map[];
    }

    /** `getItem(k)`: None is `null`. */
    function GetItem(k: string): (r: Option<Stored>)
      reads this
      ensures r.Some? <==> k in items
      ensures r.Some? ==> r.value == items[k]
    {
      if k in items then Some(items[k]) else None
    }

    /** `setItem(k, v)`: a new key goes last; an existing key keeps its place. */
    method SetItem(k: string, v: Stored)
      requires Valid()
      modifies this
      ensures Valid()
      ensures items == old(items)[k := v]
      ensures keys == Appended(old(keys), k)
    {
      if k !in items {
        keys := keys + [k];
      }
      items := items[k := v];
    }

    /** `removeItem(k)`. */
    method RemoveItem(k: string)
      requires Valid()
      modifies this
      ensures Valid()
      ensures items == old(items) - {k}
      ensures keys == Without(old(keys), k)
    {
      WithoutDistinct(keys, k);
      keys := Without(keys, k);
      items := items - {k};
    }
  }
}
