/** `RedisOtpStorage`: its commands on a Redis server, which runs each script as one step. */
module RedisStorage {
  import opened Options
  import opened OtpScope
  import opened StorageKeys
  import R = RedisScope
  import opened RedisScope

  datatype Value = OtpValue(entry: Entry) | CountValue(count: nat) | LockValue

  /** The commands used here. A key past its deadline is as good as gone. */
  class Redis {
    var keys: map<string, Key<Value>>
    const lingers: bool

    constructor (lingers: bool)
      ensures keys == map[] && this.lingers == lingers
    {
      keys, this.lingers := map[], lingers;
    }

    predicate Has(key: string, now: int)
      reads this
    {
      key in keys && Alive(Some(keys[key]), now, lingers)
    }

    method Get(key: string, now: int) returns (value: Option<Value>)
      ensures value == if Has(key, now) then Some(keys[key].value) else None
    {
      value := if Has(key, now) then Some(keys[key].value) else None;
    }

    /** `SET`, with `PX` if a lifetime is given. */
    method Set(key: string, value: Value, lifetime: Option<int>, now: int)
      modifies this`keys
      ensures keys == old(keys)[key := Key(value, if lifetime.Some? then Some(now + lifetime.value) else None)]
    {
      keys := keys[key := Key(value, if lifetime.Some? then Some(now + lifetime.value) else None)];
    }

    method SetEx(key: string, seconds: int, value: Value, now: int)
      modifies this`keys
      ensures keys == old(keys)[key := Key(value, Some(now + 1000 * seconds))]
    {
      Set(key, value, Some(1000 * seconds), now);
    }

    /** `SET … EX … NX`. */
    method SetExNx(key: string, value: Value, seconds: int, now: int) returns (ok: bool)
      modifies this`keys
      ensures ok == !old(Has(key, now))
      ensures keys == if ok then old(keys)[key := Key(value, Some(now + 1000 * seconds))] else old(keys)
    {
      ok := !Has(key, now);
      if ok {
        SetEx(key, seconds, value, now);
      }
    }

    /** `SET … KEEPTTL XX`. */
    method SetKeepTtlXx(key: string, value: Value, now: int)
      modifies this`keys
      ensures keys == if old(Has(key, now)) then old(keys)[key := Key(value, old(keys)[key].deadline)] else old(keys)
    {
      if Has(key, now) {
        keys := keys[key := Key(value, keys[key].deadline)];
      }
    }

    method Del(key: string)
      modifies this`keys
      ensures keys == old(keys) - {key}
    {
      keys := keys - {key};
    }

    /** The remaining milliseconds; -1 for a permanent key, -2 for none. */
    method Pttl(key: string, now: int) returns (ms: int)
      ensures ms == if !Has(key, now) then -2 else if keys[key].deadline == None then -1 else keys[key].deadline.value - now
    {
      ms := if !Has(key, now) then -2 else if keys[key].deadline == None then -1 else keys[key].deadline.value - now;
    }

    method Incr(key: string, now: int) returns (count: nat)
      requires Has(key, now) ==> keys[key].value.CountValue?
      modifies this`keys
      ensures count == (if old(Has(key, now)) then old(keys)[key].value.count else 0) + 1
      ensures keys == old(keys)[key := Key(CountValue(count), if old(Has(key, now)) then old(keys)[key].deadline else None)]
    {
      if Has(key, now) {
        count := keys[key].value.count + 1;
        keys := keys[key := Key(CountValue(count), keys[key].deadline)];
      } else {
        count := 1;
        keys := keys[key := Key(CountValue(count), None)];
      }
    }

    method Expire(key: string, seconds: int, now: int)
      requires Has(key, now)
      modifies this`keys
      ensures keys == old(keys)[key := Key(old(keys)[key].value, Some(now + 1000 * seconds))]
    {
      keys := keys[key := Key(keys[key].value, Some(now + 1000 * seconds))];
    }
  }

  // ---------- The keys of a scope ----------

  /** Where a storage keeps its keys. */
  datatype Home = Home(hash: string -> string, namespace: string)

  datatype Ref = Ref(tenant: string, recipient: string, purpose: string)

  function KeyFor(home: Home, family: Family, ref: Ref): string {
    RedisKey(home.hash, home.namespace, family, ref.tenant, ref.recipient, ref.purpose)
  }

  predicate OfFamily(value: Value, family: Family) {
    match family
    case Otp => value.OtpValue?
    case Failure => value.CountValue?
    case Cooldown => value.LockValue?
  }

  /** Every key of the storage holds a value of its family. */
  ghost predicate WellKept(home: Home, keys: map<string, Key<Value>>) {
    forall f, ref {:trigger KeyFor(home, f, ref)} :: KeyFor(home, f, ref) in keys ==> OfFamily(keys[KeyFor(home, f, ref)].value, f)
  }

  ghost function ScopeIn(home: Home, keys: map<string, Key<Value>>, ref: Ref): Keys
    requires WellKept(home, keys)
  {
    var otp, failure, cooldown := KeyFor(home, Otp, ref), KeyFor(home, Failure, ref), KeyFor(home, Cooldown, ref);
    Keys(
      if otp in keys then Some(Key(keys[otp].value.entry, keys[otp].deadline)) else None,
      if cooldown in keys then Some(Key((), keys[cooldown].deadline)) else None,
      if failure in keys then Some(Key(keys[failure].value.count, keys[failure].deadline)) else None)
  }

  /** Two scopes that differ in a component, and between which the hash does not collide. */
  ghost predicate Apart(home: Home, ref: Ref, other: Ref) {
    && (ref.tenant != other.tenant || ref.recipient != other.recipient || ref.purpose != other.purpose)
    && TellsApart(home.hash, ref.tenant, ref.recipient, other.tenant, other.recipient)
  }

  /** A change at one key of a scope is no change for scopes apart from it. */
  lemma OthersApart(home: Home, before: map<string, Key<Value>>, after: map<string, Key<Value>>, family: Family, ref: Ref)
    requires WellKept(home, before) && WellKept(home, after)
    requires before - {KeyFor(home, family, ref)} == after - {KeyFor(home, family, ref)}
    ensures forall other :: Apart(home, ref, other) ==> ScopeIn(home, after, other) == ScopeIn(home, before, other)
  {
    var key := KeyFor(home, family, ref);
    forall other | Apart(home, ref, other) ensures ScopeIn(home, after, other) == ScopeIn(home, before, other) {
      forall f ensures KeyFor(home, f, other) != key {
        if f == family {
          RedisScopesApart(home.hash, home.namespace, f, ref.tenant, ref.recipient, ref.purpose,
                           other.tenant, other.recipient, other.purpose);
        } else {
          FamiliesDisjoint(home.hash, home.namespace, f, other.tenant, other.recipient, other.purpose,
                           family, ref.tenant, ref.recipient, ref.purpose);
        }
      }
      forall k | k != key ensures (k in before <==> k in after) && (k in before ==> before[k] == after[k]) {
        assert k in before - {key} <==> k in after - {key};
        assert k in before ==> (before - {key})[k] == (after - {key})[k];
      }
    }
  }

  /** The families being disjoint, a value put under a key of one family disturbs no other. */
  lemma PutAt(home: Home, keys: map<string, Key<Value>>, family: Family, ref: Ref, put: Key<Value>)
    requires WellKept(home, keys) && OfFamily(put.value, family)
    ensures var after := keys[KeyFor(home, family, ref) := put];
      && WellKept(home, after)
      && ScopeIn(home, after, ref) == match put.value
           case OtpValue(entry) => ScopeIn(home, keys, ref).(entry := Some(Key(entry, put.deadline)))
           case CountValue(count) => ScopeIn(home, keys, ref).(failures := Some(Key(count, put.deadline)))
           case LockValue => ScopeIn(home, keys, ref).(cooldown := Some(Key((), put.deadline)))
    ensures var after := keys[KeyFor(home, family, ref) := put];
      forall other :: Apart(home, ref, other) ==> ScopeIn(home, after, other) == ScopeIn(home, keys, other)
  {
    var key := KeyFor(home, family, ref);
    forall f, other {:trigger KeyFor(home, f, other)} | f != family ensures KeyFor(home, f, other) != key {
      FamiliesDisjoint(home.hash, home.namespace, f, other.tenant, other.recipient, other.purpose,
                       family, ref.tenant, ref.recipient, ref.purpose);
    }
    assert keys - {key} == keys[key := put] - {key};
    OthersApart(home, keys, keys[key := put], family, ref);
  }

  lemma DropAt(home: Home, keys: map<string, Key<Value>>, family: Family, ref: Ref)
    requires WellKept(home, keys)
    ensures var after := keys - {KeyFor(home, family, ref)};
      && WellKept(home, after)
      && ScopeIn(home, after, ref) == match family
           case Otp => ScopeIn(home, keys, ref).(entry := None)
           case Failure => ScopeIn(home, keys, ref).(failures := None)
           case Cooldown => ScopeIn(home, keys, ref).(cooldown := None)
    ensures var after := keys - {KeyFor(home, family, ref)};
      forall other :: Apart(home, ref, other) ==> ScopeIn(home, after, other) == ScopeIn(home, keys, other)
  {
    var key := KeyFor(home, family, ref);
    forall f, other {:trigger KeyFor(home, f, other)} | f != family ensures KeyFor(home, f, other) != key {
      FamiliesDisjoint(home.hash, home.namespace, f, other.tenant, other.recipient, other.purpose,
                       family, ref.tenant, ref.recipient, ref.purpose);
    }
    assert keys - {key} == keys - {key} - {key};
    OthersApart(home, keys, keys - {key}, family, ref);
  }

  // ---------- The storage ----------

  class RedisOtpStorage {
    const redis: Redis
    const home: Home

    ghost predicate Valid()
      reads redis
    {
      WellKept(home, redis.keys)
    }

    ghost function ScopeOf(ref: Ref): Keys
      requires Valid()
      reads redis
    {
      ScopeIn(home, redis.keys, ref)
    }

    /** No key but this one changed. */
    twostate predicate OnlyAt(family: Family, ref: Ref)
      reads redis
    {
      redis.keys - {KeyFor(home, family, ref)} == old(redis.keys) - {KeyFor(home, family, ref)}
    }

    /** And nothing of the scopes apart from it. */
    twostate predicate OthersKept(ref: Ref)
      reads redis
    {
      old(Valid()) && Valid() && forall other :: Apart(home, ref, other) ==> ScopeOf(other) == old(ScopeOf(other))
    }

    constructor (redis: Redis, hash: string -> string, namespace: string)
      ensures this.redis == redis && this.home == Home(hash, namespace)
      ensures redis.keys == map[] ==> Valid() && forall ref :: ScopeOf(ref) == R.NO_KEYS
    {
      this.redis, this.home := redis, Home(hash, namespace);
    }

    method Set(ref: Ref, entry: Entry, now: int)
      requires Valid()
      modifies redis
      ensures Valid() && OthersKept(ref) && OnlyAt(Otp, ref) && ScopeOf(ref) == R.Set(old(ScopeOf(ref)), now, entry)
    {
      var remaining := CeilSeconds(entry.expiresAt - now);
      var seconds := if remaining < 1 then 1 else remaining;
      PutAt(home, redis.keys, Otp, ref, Key(OtpValue(entry), Some(now + 1000 * seconds)));
      redis.SetEx(KeyFor(home, Otp, ref), seconds, OtpValue(entry), now);
    }

    method Get(ref: Ref, now: int) returns (entry: Option<Entry>)
      requires Valid()
      ensures entry == R.Get(ScopeOf(ref), now, redis.lingers)
    {
      var raw := redis.Get(KeyFor(home, Otp, ref), now);
      entry := if raw.Some? then Some(raw.value.entry) else None;
    }

    /** The script: read, check, count and rewrite in one step. */
    method ConsumeAttempt(ref: Ref, now: int) returns (result: ConsumeResult)
      requires Valid()
      modifies redis
      ensures Valid() && OthersKept(ref) && OnlyAt(Otp, ref)
      ensures (ScopeOf(ref), result) == R.ConsumeAttempt(old(ScopeOf(ref)), now, redis.lingers)
    {
      var key := KeyFor(home, Otp, ref);
      var raw := redis.Get(key, now);
      if raw == None {
        return NotFound;
      }
      var entry := raw.value.entry;
      DropAt(home, redis.keys, Otp, ref);
      if entry.expiresAt < now {
        redis.Del(key);
        return NotFound;
      }
      if entry.attempts >= entry.maxAttempts {
        redis.Del(key);
        return MaxAttempts;
      }
      entry := entry.(attempts := entry.attempts + 1);
      var ttl := redis.Pttl(key, now);
      var lifetime := if ttl > 0 then Some(ttl) else None;
      PutAt(home, redis.keys, Otp, ref, Key(OtpValue(entry), if lifetime.Some? then Some(now + lifetime.value) else None));
      redis.Set(key, OtpValue(entry), lifetime, now);
      result := Consumed(entry);
    }

    method Update(ref: Ref, entry: Entry, now: int)
      requires Valid()
      modifies redis
      ensures Valid() && OthersKept(ref) && OnlyAt(Otp, ref) && ScopeOf(ref) == R.Update(old(ScopeOf(ref)), now, redis.lingers, entry)
    {
      var key := KeyFor(home, Otp, ref);
      if key in redis.keys {
        PutAt(home, redis.keys, Otp, ref, Key(OtpValue(entry), redis.keys[key].deadline));
      }
      redis.SetKeepTtlXx(key, OtpValue(entry), now);
    }

    method Delete(ref: Ref)
      requires Valid()
      modifies redis
      ensures Valid() && OthersKept(ref) && OnlyAt(Otp, ref) && ScopeOf(ref) == old(ScopeOf(ref)).(entry := None)
    {
      DropAt(home, redis.keys, Otp, ref);
      redis.Del(KeyFor(home, Otp, ref));
    }

    method TryAcquireCooldown(ref: Ref, seconds: int, now: int) returns (acquired: bool)
      requires Valid()
      modifies redis
      ensures Valid() && OthersKept(ref) && OnlyAt(Cooldown, ref)
      ensures (ScopeOf(ref), acquired) == R.TryAcquireCooldown(old(ScopeOf(ref)), now, redis.lingers, seconds)
    {
      var key := KeyFor(home, Cooldown, ref);
      if seconds <= 0 {
        DropAt(home, redis.keys, Cooldown, ref);
        redis.Del(key);
        return true;
      }
      PutAt(home, redis.keys, Cooldown, ref, Key(LockValue, Some(now + 1000 * seconds)));
      acquired := redis.SetExNx(key, LockValue, seconds, now);
    }

    method ClearCooldown(ref: Ref)
      requires Valid()
      modifies redis
      ensures Valid() && OthersKept(ref) && OnlyAt(Cooldown, ref) && ScopeOf(ref) == old(ScopeOf(ref)).(cooldown := None)
    {
      DropAt(home, redis.keys, Cooldown, ref);
      redis.Del(KeyFor(home, Cooldown, ref));
    }

    method GetFailures(ref: Ref, now: int) returns (count: nat)
      requires Valid()
      ensures count == R.GetFailures(ScopeOf(ref), now, redis.lingers)
    {
      var raw := redis.Get(KeyFor(home, Failure, ref), now);
      count := if raw.Some? then raw.value.count else 0;
    }

    /** The script: count one failure and restart the lifetime in one step. */
    method RecordFailure(ref: Ref, ttl: int, now: int) returns (count: nat)
      requires Valid()
      modifies redis
      ensures Valid() && OthersKept(ref) && OnlyAt(Failure, ref)
      ensures (ScopeOf(ref), count) == R.RecordFailure(old(ScopeOf(ref)), now, redis.lingers, ttl)
    {
      var key := KeyFor(home, Failure, ref);
      ghost var before := redis.keys;
      var seconds := if CeilSeconds(ttl) < 1 then 1 else CeilSeconds(ttl);
      count := redis.Incr(key, now);
      redis.Expire(key, seconds, now);
      PutAt(home, before, Failure, ref, Key(CountValue(count), Some(now + 1000 * seconds)));
      assert redis.keys == before[key := Key(CountValue(count), Some(now + 1000 * seconds))];
    }

    method ClearFailures(ref: Ref)
      requires Valid()
      modifies redis
      ensures Valid() && OthersKept(ref) && OnlyAt(Failure, ref) && ScopeOf(ref) == old(ScopeOf(ref)).(failures := None)
    {
      DropAt(home, redis.keys, Failure, ref);
      redis.Del(KeyFor(home, Failure, ref));
    }
  }
}
