/**
 The string and hash halves of the in-process cache (cache/memory/memory.go).

 Keys and hash values are type parameters.  Creation and update times are metadata that no
 operation reads back, and are not modelled.  `now` is the clock value an operation reads.
 */
module MemoryCache {
  import opened Wrappers

  datatype CacheError = NotFound | KeyExpired | FieldNotFound

  datatype StrItem = StrItem(value: string, expired: Option<int>)

  datatype MapItem<V> = MapItem(fields: map<string, V>, expired: Option<int>)

  datatype Cache<K(==), V> = Cache(strItems: map<K, StrItem>, mapItems: map<K, MapItem<V>>)

  /** A zero deadline never passes; otherwise the item is dead strictly after it. */
  predicate Past(expired: Option<int>, now: int) {
    expired.Some? && now > expired.value
  }

  /** A non-positive lifetime means no deadline at all. */
  function Expiration(lifetime: int, now: int): Option<int> {
    if lifetime <= 0 then None else Some(now + lifetime)
  }

  predicate Alive<K(==), V>(c: Cache<K, V>, key: K, now: int) {
    key in c.strItems && !Past(c.strItems[key].expired, now)
  }

  /** Reading or testing a dead string item deletes it. */
  function Touched<K(==), V>(c: Cache<K, V>, key: K, now: int): Cache<K, V> {
    if key in c.strItems && Past(c.strItems[key].expired, now) then c.(strItems := c.strItems - {key}) else c
  }

  /** The fields of a hash that has not expired. */
  function Fields<K(==), V>(c: Cache<K, V>, key: K, now: int): Option<map<string, V>> {
    if key in c.mapItems && !Past(c.mapItems[key].expired, now) then Some(c.mapItems[key].fields) else None
  }

  function TouchedHash<K(==), V>(c: Cache<K, V>, key: K, now: int): Cache<K, V> {
    if key in c.mapItems && Past(c.mapItems[key].expired, now) then c.(mapItems := c.mapItems - {key}) else c
  }

  function SetStr<K(==), V>(c: Cache<K, V>, key: K, value: string, lifetime: int, now: int): Cache<K, V> {
    c.(strItems := c.strItems[key := StrItem(value, Expiration(lifetime, now))])
  }

  function DelStr<K(==), V>(c: Cache<K, V>, key: K): Cache<K, V> {
    c.(strItems := c.strItems - {key})
  }

  /** Gives an existing item a new deadline, even one past its old deadline; it never creates an item. */
  function ExpireStr<K(==), V>(c: Cache<K, V>, key: K, lifetime: int, now: int): Cache<K, V> {
    if key in c.strItems then c.(strItems := c.strItems[key := c.strItems[key].(expired := Expiration(lifetime, now))])
    else c
  }

  /** Writes one field; a missing or expired hash is created without a deadline. */
  function SetField<K(==), V>(c: Cache<K, V>, key: K, field: string, value: V, now: int): Cache<K, V> {
    match Fields(c, key, now)
    case Some(fields) => c.(mapItems := c.mapItems[key := c.mapItems[key].(fields := fields[field := value])])
    case None => c.(mapItems := c.mapItems[key := MapItem(map[field := value], None)])
  }

  function DelField<K(==), V>(c: Cache<K, V>, key: K, field: string, now: int): Cache<K, V> {
    match Fields(c, key, now)
    case Some(fields) => c.(mapItems := c.mapItems[key := c.mapItems[key].(fields := fields - {field})])
    case None => c
  }

  /** How long a key lives that was given a lifetime at `now`: for good if it is not positive. */
  predicate WithinLife(lifetime: int, now: int, t: int) {
    lifetime <= 0 || t <= now + lifetime
  }

  /** No string but that of one key, and no hash, is different. */
  ghost predicate OnlyString<K, V>(c: Cache<K, V>, c': Cache<K, V>, key: K) {
    c'.mapItems == c.mapItems && c'.strItems - {key} == c.strItems - {key}
  }

  class Memory<K(==), V> {
    var strItems: map<K, StrItem>
    var mapItems: map<K, MapItem<V>>

    ghost function View(): Cache<K, V>
      reads this
    {
      Cache(strItems, mapItems)
    }

    constructor ()
      ensures View() == Cache(map[], map[])
    {
      strItems, mapItems := map[], map[];
    }

    method Set(key: K, value: string, lifetime: int, now: int)
      modifies this
      ensures View() == SetStr(old(View()), key, value, lifetime, now)
      ensures key in strItems && strItems[key].value == value
      ensures forall t :: Alive(View(), key, t) <==> WithinLife(lifetime, now, t)
      ensures OnlyString(old(View()), View(), key)
    {
      strItems := strItems[key := StrItem(value, Expiration(lifetime, now))];
    }

    method Del(key: K)
      modifies this
      ensures View() == DelStr(old(View()), key)
      ensures (forall t :: !Alive(View(), key, t)) && OnlyString(old(View()), View(), key)
    {
      strItems := strItems - {key};
    }

    method Get(key: K, now: int) returns (result: Result<string, CacheError>)
      modifies this
      ensures View() == Touched(old(View()), key, now)
      ensures result.Ok? <==> Alive(old(View()), key, now)
      ensures result.Ok? ==> result.value == old(strItems)[key].value
    {
      if key !in strItems {
        return Err(NotFound);
      }
      if Past(strItems[key].expired, now) {
        strItems := strItems - {key};
        return Err(KeyExpired);
      }
      return Ok(strItems[key].value);
    }

    method Expire(key: K, lifetime: int, now: int) returns (error: Option<CacheError>)
      modifies this
      ensures View() == ExpireStr(old(View()), key, lifetime, now)
      ensures error.Some? ==> View() == old(View())
      ensures error.None? ==> key in strItems && strItems[key].value == old(strItems)[key].value
      ensures error.None? ==> forall t :: Alive(View(), key, t) <==> WithinLife(lifetime, now, t)
      ensures OnlyString(old(View()), View(), key)
      ensures error == if key in old(strItems) then None else Some(NotFound)
    {
      if key !in strItems {
        return Some(NotFound);
      }
      strItems := strItems[key := strItems[key].(expired := Expiration(lifetime, now))];
      return None;
    }

    method Exists(key: K, now: int) returns (found: bool)
      modifies this
      ensures View() == Touched(old(View()), key, now)
      ensures found == Alive(old(View()), key, now)
    {
      if key !in strItems {
        return false;
      }
      if Past(strItems[key].expired, now) {
        strItems := strItems - {key};
        return false;
      }
      return true;
    }

    method HGetAll(key: K, now: int) returns (result: Result<map<string, V>, CacheError>)
      modifies this
      ensures View() == TouchedHash(old(View()), key, now)
      ensures result.Ok? <==> Fields(old(View()), key, now).Some?
      ensures result.Ok? ==> result.value == Fields(old(View()), key, now).value
    {
      if key !in mapItems {
        return Err(NotFound);
      }
      if Past(mapItems[key].expired, now) {
        mapItems := mapItems - {key};
        return Err(KeyExpired);
      }
      return Ok(mapItems[key].fields);
    }

    method HGet(key: K, field: string, now: int) returns (result: Result<V, CacheError>)
      modifies this
      ensures View() == TouchedHash(old(View()), key, now)
      ensures result.Ok? <==> Fields(old(View()), key, now).Some? && field in Fields(old(View()), key, now).value
      ensures result.Ok? ==> result.value == Fields(old(View()), key, now).value[field]
    {
      var all := HGetAll(key, now);
      if all.Err? {
        return Err(all.error);
      }
      if field !in all.value {
        return Err(FieldNotFound);
      }
      return Ok(all.value[field]);
    }

    method HSet(key: K, field: string, value: V, now: int)
      modifies this
      ensures View() == SetField(old(View()), key, field, value, now)
    {
      var item := if key in mapItems && !Past(mapItems[key].expired, now) then mapItems[key] else MapItem(map[], None);
      mapItems := mapItems[key := item.(fields := item.fields[field := value])];
    }

    method HDel(key: K, field: string, now: int) returns (error: Option<CacheError>)
      modifies this
      ensures View() == DelField(old(View()), key, field, now)
      ensures error.None? <==> Fields(old(View()), key, now).Some?
    {
      if key !in mapItems {
        return Some(NotFound);
      }
      if Past(mapItems[key].expired, now) {
        return Some(KeyExpired);
      }
      mapItems := mapItems[key := mapItems[key].(fields := mapItems[key].fields - {field})];
      return None;
    }
  }
}
