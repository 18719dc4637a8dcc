/** How a purpose is configured, and the entry that issuing a code stores. */
module Issuing {
  import opened Options
  import opened Codes
  import opened OtpScope
  import opened Quotients

  /** The configuration of a purpose; lengths of time are in milliseconds. `aliased` says that the storage
      hands out the stored entry itself (in memory) and not a copy (Redis). */
  datatype Config = Config(length: int, codeType: CodeType, ttl: int, maxAttempts: nat, cooldown: int,
                           consumeOnVerify: bool, hmac: Option<Hmac>, aliased: bool)

  predicate ValidConfig(cfg: Config) {
    ValidLength(cfg.length) && cfg.ttl > 0 && cfg.cooldown >= 0
  }

  /** The store holds the digest when a secret is configured. */
  function IssuedEntry(cfg: Config, now: int, code: string): Entry {
    Entry(StoredForm(code, cfg.hmac), now + cfg.ttl, 0, cfg.maxAttempts, false)
  }

  /** What a wrong guess is told: the code's own budget or the recipient's, whichever is nearer. */
  function Remaining(cfg: Config, e: Entry, ticket: nat): int {
    Min(e.maxAttempts - e.attempts, cfg.maxAttempts - ticket)
  }
}
