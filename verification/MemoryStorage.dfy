/** `InMemoryOtpStorage`: three maps, and entry objects that callers share with the storage. */
module MemoryStorage {
  import opened Options
  import opened OtpScope
  import F = CounterLog
  import C = CooldownLog

  /** A stored entry. Only its attempts are ever assigned. */
  class OtpEntry {
    const code: string
    const expiresAt: int
    var attempts: nat
    const maxAttempts: nat
    const validated: bool

    ghost function Value(): Entry
      reads this
    {
      Entry(code, expiresAt, attempts, maxAttempts, validated)
    }

    constructor (code: string, expiresAt: int, attempts: nat, maxAttempts: nat, validated: bool)
      ensures Value() == Entry(code, expiresAt, attempts, maxAttempts, validated)
    {
      this.code, this.expiresAt, this.attempts, this.maxAttempts, this.validated :=
        code, expiresAt, attempts, maxAttempts, validated;
    }
  }

  /** `consumeAttempt` answers the stored object itself. */
  datatype Consumption = NoEntry | Exhausted | Ok(entry: OtpEntry)

  class InMemoryOtpStorage {
    var store: map<string, OtpEntry>
    var cooldowns: map<string, int>
    var failures: map<string, F.Counter>

    /** What the storage holds under a key. */
    ghost function ScopeOf(key: string): Scope
      reads this, store.Values
    {
      Scope(
        if key in store then Some(store[key].Value()) else None,
        if key in cooldowns then C.Until(cooldowns[key]) else C.Free,
        if key in failures then failures[key] else F.NoCounter)
    }

    /** No object is stored under two keys. */
    ghost predicate Separate()
      reads this
    {
      forall j, k :: j in store && k in store && j != k ==> store[j] != store[k]
    }

    /** Only the scope of `key` changed. */
    twostate predicate OnlyAt(key: string)
      reads this, store.Values
    {
      forall k :: k != key ==> ScopeOf(k) == old(ScopeOf(k))
    }

    constructor ()
      ensures Separate() && forall key :: ScopeOf(key) == EMPTY
    {
      store, cooldowns, failures := map[], map[], map[];
    }

    /** The given object is stored under no other key. */
    ghost predicate Unshared(key: string, entry: OtpEntry)
      reads this
    {
      forall k :: k in store && k != key ==> store[k] != entry
    }

    method Set(key: string, entry: OtpEntry)
      modifies this`store
      ensures OnlyAt(key) && store == old(store)[key := entry]
      ensures ScopeOf(key) == old(ScopeOf(key)).(entry := Some(entry.Value()))
      ensures old(Separate() && Unshared(key, entry)) ==> Separate()
    {
      store := store[key := entry];
    }

    method Get(key: string, now: int) returns (entry: Option<OtpEntry>)
      modifies this`store
      ensures OnlyAt(key) && ScopeOf(key) == Evict(old(ScopeOf(key)), now)
      ensures store.Values <= old(store.Values) && (old(Separate()) ==> Separate())
      ensures match entry
        case None => OtpScope.Get(old(ScopeOf(key)), now) == None
        case Some(e) => key in store && store[key] == e && OtpScope.Get(old(ScopeOf(key)), now) == Some(e.Value())
    {
      if key !in store {
        return None;
      }
      if store[key].expiresAt < now {
        store := store - {key};
        return None;
      }
      entry := Some(store[key]);
    }

    method ConsumeAttempt(key: string, now: int) returns (result: Consumption)
      modifies this`store, if key in store then {store[key]} else {}
      ensures old(Separate()) ==> Separate() && OnlyAt(key)
      ensures ScopeOf(key) == OtpScope.ConsumeAttempt(old(ScopeOf(key)), now).0
      ensures match OtpScope.ConsumeAttempt(old(ScopeOf(key)), now).1
        case NotFound => result == NoEntry
        case MaxAttempts => result == Exhausted
        case Consumed(e) => result.Ok? && key in store && store[key] == result.entry && result.entry.Value() == e
    {
      if key !in store {
        return NoEntry;
      }
      var entry := store[key];
      if entry.expiresAt < now {
        store := store - {key};
        return NoEntry;
      }
      if entry.attempts >= entry.maxAttempts {
        store := store - {key};
        return Exhausted;
      }
      entry.attempts := entry.attempts + 1;
      store := store[key := entry];
      result := Ok(entry);
    }

    method Update(key: string, entry: OtpEntry)
      modifies this`store
      ensures OnlyAt(key) && ScopeOf(key) == OtpScope.Update(old(ScopeOf(key)), entry.Value())
      ensures store == if key in old(store) then old(store)[key := entry] else old(store)
      ensures old(Separate() && Unshared(key, entry)) ==> Separate()
    {
      if key in store {
        store := store[key := entry];
      }
    }

    method Delete(key: string)
      modifies this`store
      ensures OnlyAt(key) && ScopeOf(key) == old(ScopeOf(key)).(entry := None)
      ensures old(Separate()) ==> Separate()
    {
      store := store - {key};
    }

    method TryAcquireCooldown(key: string, now: int, length: int) returns (acquired: bool)
      modifies this`cooldowns
      ensures OnlyAt(key)
      ensures (ScopeOf(key), acquired) == OtpScope.TryAcquireCooldown(old(ScopeOf(key)), now, length)
    {
      if key in cooldowns && cooldowns[key] != 0 && cooldowns[key] > now {
        return false;
      }
      cooldowns := cooldowns[key := now + length];
      acquired := true;
    }

    method GetCooldown(key: string, now: int) returns (remaining: int)
      modifies this`cooldowns
      ensures OnlyAt(key)
      ensures (ScopeOf(key), remaining) == OtpScope.GetCooldown(old(ScopeOf(key)), now)
    {
      if key !in cooldowns || cooldowns[key] == 0 {
        return 0;
      }
      remaining := CeilSeconds(cooldowns[key] - now);
      if remaining <= 0 {
        cooldowns := cooldowns - {key};
        remaining := 0;
      }
    }

    method ClearCooldown(key: string)
      modifies this`cooldowns
      ensures OnlyAt(key) && ScopeOf(key) == old(ScopeOf(key)).(cooldown := C.Free)
    {
      cooldowns := cooldowns - {key};
    }

    method GetFailures(key: string, now: int) returns (count: nat)
      modifies this`failures
      ensures OnlyAt(key)
      ensures (ScopeOf(key), count) == OtpScope.GetFailures(old(ScopeOf(key)), now)
    {
      if key !in failures || failures[key].NoCounter? {
        return 0;
      }
      if failures[key].expiresAt <= now {
        failures := failures - {key};
        return 0;
      }
      count := failures[key].count;
    }

    method RecordFailure(key: string, now: int, ttl: int) returns (count: nat)
      modifies this`failures
      ensures OnlyAt(key)
      ensures (ScopeOf(key), count) == OtpScope.RecordFailure(old(ScopeOf(key)), now, ttl)
    {
      count := GetFailures(key, now);
      count := count + 1;
      failures := failures[key := F.Counting(count, now + ttl)];
    }

    method ClearFailures(key: string)
      modifies this`failures
      ensures OnlyAt(key) && ScopeOf(key) == old(ScopeOf(key)).(failures := F.NoCounter)
    {
      failures := failures - {key};
    }

    method Clear()
      modifies this
      ensures Separate() && forall key :: ScopeOf(key) == EMPTY
    {
      store, cooldowns, failures := map[], map[], map[];
    }
  }
}
