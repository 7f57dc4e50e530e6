/**
 * storage.ts: class `LocalStorage`, a prefixed key-value layer over the
 * browser's localStorage with timestamped envelopes and expiry on read.
 * The clock (`Date.now()`) is the parameter `now`, in milliseconds.
 */
module LocalStore {
  import opened Wrappers
  import opened WebStorage
  import opened Unique

  const STORAGE_PREFIX := "swaasth_buddy_"

  /** `key.startsWith(STORAGE_PREFIX)`. */
  predicate HasPrefix(k: string) {
    |k| >= |STORAGE_PREFIX| && k[..|STORAGE_PREFIX|] == STORAGE_PREFIX
  }

  /** `getKey`: the stored key is the prefix followed by the caller's key, which it gives back. */
  function GetKey(key: string): (k: string)
    ensures HasPrefix(k) && k[|STORAGE_PREFIX|..] == key
  {
    STORAGE_PREFIX + key
  }

  /** `StorageOptions`: `serialize` and `expire` (seconds) may each be left out. */
  datatype Options = Options(serialize: Option<bool>, expire: Option<int>)

  const DEFAULTS := Options(None, None)

  /** `options.expire ? now + options.expire * 1000 : null`. */
  function ExpiryOf(expire: Option<int>, now: int): (r: Option<int>)
    ensures r.Some? <==> expire.Some? && expire.value != 0
    ensures r.Some? ==> r.value == now + expire.value * 1000
  {
    if expire.Some? && expire.value != 0 then Some(now + expire.value * 1000) else None
  }

  /** What `set` writes: the envelope unless `serialize` is false, and then the string itself. */
  function Encode(value: Json, options: Options, now: int): (s: Stored)
    requires options.serialize == Some(false) ==> value.Str?
    ensures s.Envelope? <==> options.serialize != Some(false)
    ensures s.Envelope? ==> s.value == value && s.timestamp == now && s.expire == ExpiryOf(options.expire, now)
    ensures s.Raw? ==> s.text == value.s
  {
    if options.serialize != Some(false) then Envelope(value, now, ExpiryOf(options.expire, now))
    else Raw(value.s)
  }

  /** `data.expire && Date.now() > data.expire`. */
  predicate Expired(s: Stored, now: int) {
    s.Envelope? && s.expire.Some? && s.expire.value != 0 && now > s.expire.value
  }

  /**
   * What `get` returns for the item it finds: the default for a missing or
   * empty item and for an expired envelope, an envelope's value, nothing
   * (`undefined`, here Null) for a parsed document without a `value` field,
   * and raw text as it is.
   */
  function Read(item: Option<Stored>, defaultValue: Json, now: int): (r: Json)
    ensures !Truthy(item) ==> r == defaultValue
    ensures Truthy(item) && Expired(item.value, now) ==> r == defaultValue
    ensures Truthy(item) && item.value.Envelope? && !Expired(item.value, now) ==> r == item.value.value
    ensures Truthy(item) && item.value.Raw? ==> r == Str(item.value.text)
    ensures Truthy(item) && item.value.UserDoc? ==> r == Null
  {
    if !Truthy(item) then defaultValue
    else match item.value
      case Envelope(v, _, _) => if Expired(item.value, now) then defaultValue else v
      case UserDoc(_) => Null
      case Raw(s) => Str(s)
  }

  /** The keys with the prefix, in storage order. */
  function Prefixed(keys: seq<string>): (r: seq<string>)
    ensures forall k :: k in r <==> k in keys && HasPrefix(k)
  {
    if keys == [] then []
    else Prefixed(keys[..|keys| - 1]) + (if HasPrefix(keys[|keys| - 1]) then [keys[|keys| - 1]] else [])
  }

  /** The keys without the prefix, in storage order: what `clear` leaves. */
  function Unprefixed(keys: seq<string>): (r: seq<string>)
    ensures forall k :: k in r <==> k in keys && !HasPrefix(k)
  {
    if keys == [] then []
    else Unprefixed(keys[..|keys| - 1]) + (if HasPrefix(keys[|keys| - 1]) then [] else [keys[|keys| - 1]])
  }

  /** Taking out a list that holds exactly the prefixed keys leaves the unprefixed ones in order. */
  lemma {:induction false} OutsidePrefixed(keys: seq<string>, removed: seq<string>)
    requires forall k :: k in keys ==> (k in removed <==> HasPrefix(k))
    ensures Outside(keys, removed) == Unprefixed(keys)
  {
    if keys != [] {
      OutsidePrefixed(keys[..|keys| - 1], removed);
      assert keys[|keys| - 1] in keys;
    }
  }

  /** `getAllKeys`'s answer: the prefixed keys with the prefix cut off, in storage order. */
  function AllKeys(keys: seq<string>): seq<string> {
    if keys == [] then []
    else
      var k := keys[|keys| - 1];
      AllKeys(keys[..|keys| - 1]) + (if HasPrefix(k) then [k[|STORAGE_PREFIX|..]] else [])
  }

  /** A caller's key is listed exactly when its prefixed form is stored. */
  lemma {:induction false} AllKeysMembers(keys: seq<string>)
    ensures forall key :: key in AllKeys(keys) <==> GetKey(key) in keys
  {
    if keys != [] {
      var p := keys[..|keys| - 1];
      var k := keys[|keys| - 1];
      AllKeysMembers(p);
      forall key
        ensures key in AllKeys(keys) <==> GetKey(key) in keys
      {
        if HasPrefix(k) {
          assert k == STORAGE_PREFIX + k[|STORAGE_PREFIX|..];
          assert key == k[|STORAGE_PREFIX|..] <==> GetKey(key) == k;
        } else {
          assert GetKey(key) != k;
        }
        assert GetKey(key) in keys <==> GetKey(key) in p || GetKey(key) == k;
      }
    }
  }

  /** With no prefixed key left the list is empty. */
  lemma {:induction false} AllKeysEmpty(keys: seq<string>)
    requires forall k :: k in keys ==> !HasPrefix(k)
    ensures AllKeys(keys) == []
  {
    if keys != [] {
      AllKeysEmpty(keys[..|keys| - 1]);
      assert keys[|keys| - 1] in keys;
    }
  }

  /** `set(k, v)` then `get(k)` gives v back at any later time when no expiry is given. */
  lemma SetThenGet(value: Json, now: int, later: int, defaultValue: Json)
    ensures Read(Some(Encode(value, DEFAULTS, now)), defaultValue, later) == value
    ensures Read(Some(Encode(value, Options(Some(true), Some(0)), now)), defaultValue, later) == value
  {
  }

  /**
   * With `expire = e > 0` seconds, set at a non-negative time `now`: the value
   * is read back up to and including now + 1000e, and the default strictly after.
   */
  lemma ExpiryOnRead(value: Json, e: int, now: int, later: int, defaultValue: Json)
    requires e > 0 && now >= 0
    ensures Read(Some(Encode(value, Options(None, Some(e)), now)), defaultValue, later)
         == if later > now + e * 1000 then defaultValue else value
  {
    var s := Encode(value, Options(None, Some(e)), now);
    assert s.expire == Some(now + e * 1000);
    assert now + e * 1000 > 0;
  }

  /**
   * Any envelope `set` writes reads back as the value until its expiry passes
   * and as the default after; no expiry, or `expire: 0`, never expires (nor
   * does an expiry that lands on time 0, which JavaScript reads as falsy).
   */
  lemma ReadOfEncode(value: Json, options: Options, now: int, later: int, defaultValue: Json)
    requires options.serialize != Some(false)
    ensures Read(Some(Encode(value, options, now)), defaultValue, later)
         == if options.expire.Some? && options.expire.value != 0
               && now + options.expire.value * 1000 != 0 && later > now + options.expire.value * 1000
            then defaultValue else value
  {
  }

  /** With `serialize: false` a non-empty string is read back verbatim (the model treats raw text as not JSON). */
  lemma RawRoundTrip(text: string, now: int, later: int, defaultValue: Json)
    requires text != ""
    ensures Read(Some(Encode(Str(text), Options(Some(false), None), now)), defaultValue, later) == Str(text)
  {
  }

  class LocalStorage {
    /** The browser's localStorage. */
    const store: Store

    constructor (store: Store)
      ensures this.store == store
    {
      this.store := store;
    }

    /** `set`: writes one key and leaves every other key as it was. */
    method Set(key: string, value: Json, options: Options, now: int)
      requires store.Valid()
      requires options.serialize == Some(false) ==> value.Str?
      modifies store
      ensures store.Valid()
      ensures store.items == old(store.items)[GetKey(key) := Encode(value, options, now)]
      ensures store.keys == Appended(old(store.keys), GetKey(key))
      ensures forall k :: k != GetKey(key) ==> store.GetItem(k) == old(store.GetItem(k))
    {
      store.SetItem(GetKey(key), Encode(value, options, now));
    }

    /** `get`: an expired envelope is removed as it is read. */
    method Get(key: string, defaultValue: Json, now: int) returns (r: Json)
      requires store.Valid()
      modifies store
      ensures store.Valid()
      ensures r == Read(old(store.GetItem(GetKey(key))), defaultValue, now)
      ensures var item := old(store.GetItem(GetKey(key)));
        store.items == if Truthy(item) && Expired(item.value, now) then old(store.items) - {GetKey(key)} else old(store.items)
    ensures var item := old(store.GetItem(GetKey(key)));
        store.keys == if Truthy(item) && Expired(item.value, now) then Without(old(store.keys), GetKey(key)) else old(store.keys)
    {
      var item := store.GetItem(GetKey(key));
      if !Truthy(item) {
        return defaultValue;
      }
      match item.value {
        case Envelope(v, _, _) =>
          if Expired(item.value, now) {
            Remove(key);
            return defaultValue;
          }
          return v;
        case UserDoc(_) =>
          return Null;
        case Raw(s) =>
          return Str(s);
      }
    }

    /** `remove`. */
    method Remove(key: string)
      requires store.Valid()
      modifies store
      ensures store.Valid()
      ensures store.items == old(store.items) - {GetKey(key)}
      ensures store.keys == Without(old(store.keys), GetKey(key))
      ensures !Exists(key)
    {
      store.RemoveItem(GetKey(key));
    }

    /** `exists`: `getItem(getKey(key)) !== null`. */
    function Exists(key: string): bool
      reads this, store
    {
      store.GetItem(GetKey(key)).Some?
    }

    /** `clear`'s first loop: the keys that start with the prefix, in storage order. */
    method PrefixedKeys() returns (keysToRemove: seq<string>)
      ensures keysToRemove == Prefixed(store.keys)
    {
      keysToRemove := [];
      for i := 0 to |store.keys|
        invariant keysToRemove == Prefixed(store.keys[..i])
      {
        assert store.keys[..i + 1] == store.keys[..i] + [store.keys[i]];
        if HasPrefix(store.keys[i]) {
          keysToRemove := keysToRemove + [store.keys[i]];
        }
      }
      assert store.keys[..|store.keys|] == store.keys;
    }

    /** `clear`'s second loop: `removeItem` for each listed key in turn. */
    method RemoveAll(keysToRemove: seq<string>)
      requires store.Valid()
      modifies store
      ensures store.Valid()
      ensures store.items == old(store.items) - Elements(keysToRemove)
      ensures store.keys == Outside(old(store.keys), keysToRemove)
    {
      OutsideNothing(store.keys);
      for i := 0 to |keysToRemove|
        invariant store.Valid()
        invariant store.items == old(store.items) - Elements(keysToRemove[..i])
        invariant store.keys == Outside(old(store.keys), keysToRemove[..i])
      {
        assert keysToRemove[..i + 1] == keysToRemove[..i] + [keysToRemove[i]];
        assert Elements(keysToRemove[..i + 1]) == Elements(keysToRemove[..i]) + {keysToRemove[i]};
        assert old(store.items) - Elements(keysToRemove[..i + 1])
            == (old(store.items) - Elements(keysToRemove[..i])) - {keysToRemove[i]};
        WithoutOutside(old(store.keys), keysToRemove[..i], keysToRemove[i]);
        store.RemoveItem(keysToRemove[i]);
      }
      assert keysToRemove[..|keysToRemove|] == keysToRemove;
    }

    /** `clear`: collects the prefixed keys, then removes each; keys without the prefix stay. */
    method Clear()
      requires store.Valid()
      modifies store
      ensures store.Valid()
      ensures forall k :: k in store.items <==> k in old(store.items) && !HasPrefix(k)
      ensures forall k :: k in store.items ==> store.items[k] == old(store.items)[k]
      ensures store.keys == Unprefixed(old(store.keys))
      ensures AllKeys(store.keys) == []
    {
      var keysToRemove := PrefixedKeys();
      OutsidePrefixed(store.keys, keysToRemove);
      RemoveAll(keysToRemove);
      AllKeysEmpty(store.keys);
    }

    /** `getAllKeys`: one pass over the keys, keeping the prefixed ones without their prefix. */
    method GetAllKeys() returns (keys: seq<string>)
      requires store.Valid()
      ensures keys == AllKeys(store.keys)
    {
      keys := [];
      for i := 0 to |store.keys|
        invariant keys == AllKeys(store.keys[..i])
      {
        var k := store.keys[i];
        assert store.keys[..i + 1] == store.keys[..i] + [k];
        if HasPrefix(k) {
          keys := keys + [k[|STORAGE_PREFIX|..]];
        }
      }
      assert store.keys[..|store.keys|] == store.keys;
    }
  }

  /** What `getAllKeys` lists after `clear`: nothing. */
  lemma ClearedListsNothing(store: Store)
    requires store.Valid()
    requires forall k :: k in store.items ==> !HasPrefix(k)
    ensures AllKeys(store.keys) == []
  {
    AllKeysEmpty(store.keys);
  }
}
