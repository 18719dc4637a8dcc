/** The stored state of one (tenant, recipient, purpose) scope and the atomic storage operations on it. */
module OtpScope {
  import opened Options
  import F = CounterLog
  import C = CooldownLog

  /** A stored one-time password; `code` is its stored form. */
  datatype Entry = Entry(code: string, expiresAt: int, attempts: nat, maxAttempts: nat, validated: bool)

  /** An entry is live up to and including the moment it expires. */
  predicate Live(e: Entry, now: int) {
    now <= e.expiresAt
  }

  datatype ConsumeResult = NotFound | MaxAttempts | Consumed(entry: Entry)

  /** What the storage holds for one scope. */
  datatype Scope = Scope(entry: Option<Entry>, cooldown: C.Cooldown, failures: F.Counter)

  const EMPTY := Scope(None, C.Free, F.NoCounter)

  function Evict(s: Scope, now: int): Scope {
    if s.entry.Some? && !Live(s.entry.value, now) then s.(entry := None) else s
  }

  /** `get`, apart from the eviction. */
  function Get(s: Scope, now: int): Option<Entry> {
    Evict(s, now).entry
  }

  /** The atomic verification primitive. */
  function ConsumeAttempt(s: Scope, now: int): (Scope, ConsumeResult) {
    match Get(s, now)
    case None => (s.(entry := None), NotFound)
    case Some(e) =>
      if e.attempts >= e.maxAttempts then (s.(entry := None), MaxAttempts)
      else
        var counted := e.(attempts := e.attempts + 1);
        (s.(entry := Some(counted)), Consumed(counted))
  }

  /** `update`: replaces what is there, expired or not, and does nothing when nothing is there. */
  function Update(s: Scope, entry: Entry): Scope {
    if s.entry.Some? then s.(entry := Some(entry)) else s
  }

  function TryAcquireCooldown(s: Scope, now: int, length: int): (Scope, bool) {
    if C.Held(s.cooldown, now) then (s, false) else (s.(cooldown := C.Until(now + length)), true)
  }

  function RecordFailure(s: Scope, now: int, ttl: int): (Scope, nat) {
    var counted := F.Record(s.failures, now, ttl);
    (s.(failures := counted), counted.count)
  }

  /** Whole seconds, rounded up. */
  function CeilSeconds(ms: int): int {
    (ms + 999) / 1000
  }

  /** `getCooldown`: the remaining seconds; a lapsed cooldown is forgotten. */
  function GetCooldown(s: Scope, now: int): (Scope, int) {
    if s.cooldown.Free? || s.cooldown.expiry == 0 then (s, 0)
    else if CeilSeconds(s.cooldown.expiry - now) <= 0 then (s.(cooldown := C.Free), 0)
    else (s, CeilSeconds(s.cooldown.expiry - now))
  }

  /** `getFailures`: the live count; a lapsed counter is forgotten. */
  function GetFailures(s: Scope, now: int): (Scope, nat) {
    if s.failures.Counting? && s.failures.expiresAt <= now then (s.(failures := F.NoCounter), 0)
    else (s, F.LiveFailures(s.failures, now))
  }
}
