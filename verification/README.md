# A verified model of the notification library's one-time passwords and redaction

This project models two parts of the library and proves what they are for.

**The one-time-password protocol.** `generate`, `verify` and `consume` are sequences of atomic storage
calls that any number of callers interleave. `Protocol` is that machine, with failing storage calls, any
drawn code, lagging reads and both kinds of storage; `ProtocolSafety` proves an invariant of every
interleaving and, from it, that an accepted guess was an issued and unexpired code, and how many guesses
and how many new codes fit into a lifetime or a window of time. `ProtocolOrigins` follows every stored entry
back to the code it was issued for, `ProtocolAlone` shows that a caller who runs alone does in its steps what
the sequential operation does at once, `ProtocolRaces` shows what interleaving and outages do break, and
`ProtocolAttempts` exactly when one code can be attempted too often. `OtpService` and `MemoryStorage` are the
classes, one call at a time; their methods are tied to the functions of `OtpLifecycle` and `OtpScope`, and the
laws (release after every failure, round trip, the attempt budget over re-issues) are proved there.
`RedisStorage` is the Redis storage command by command, and `RedisScope` proves that it stays alike with the
in-memory one over a run, if and only if every call observes a condition of its own.
`Issuing` holds the configuration of a purpose; `StorageKeys` and `Codes` cover the keys and the codes that
all this rests on.

**The redaction engine.** `Redaction` ties the interval-merging loop to a character-level specification and
`RedactionLaws` says exactly which values it removes. `Echo` is the detector of quoted content, `ErrorChain`
the two-pass rewrite of a possibly cyclic chain of errors in place, `ErrorLaws` what it makes of one error,
`CloneGraph` the worklist clone of an
arbitrary object graph, `CauseCopy` the bounded copy of a cause chain. `EmailFailure` composes detection and
rewrite as a failed delivery does. `Patterns` and `DeliveryStatus` cover the status codes that may be
published, `Escaping` and `Template` the default renderer.

Code that changes state step by step is modelled by classes and methods with loops; code made of expressions
is modelled by functions. Strings are sequences of characters and stand for sequences of code units. Times
are whole milliseconds of one clock that does not run backwards and has started (`now > 0`). A hash, a keyed
digest, a random generator and the normalisation of a recipient are function parameters; failures of a
storage or a delivery are parameters of a call or answers of the world. A thrown error is an object whose
`traits` say which of its properties accept, refuse, ignore or throw on a write, and whether it can be
read at all; a `NotificationException` has a contract besides.

Where the code and its documentation disagree, the model follows the code:

- `redactValues` is documented to leave no fragment of a value. A value that shares characters with the
  marker can be put together across the edge of a marker: `RedactionLaws.RemovesExactly` gives the condition.
- `update` is documented not to resurrect an entry. A late one can bring back a consumed code over a newer
  one, if and only if verifying does not consume (`ProtocolRaces.StaysGoneIff`). In memory it revives an
  expired entry that nobody has evicted (`RedisScope.UpdateRevivesIff`), in Redis one whose key is still
  there (`RedisScope.RedisUpdateRevivesIff`).
- The Redis script is documented to keep the expiry of the key. It does, if and only if it does not come in
  the key's last millisecond (`RedisScope.DeadlineKeptIff`); when reads are late is `RedisScope.GetIsLateIff`.
- The scrub of a failed `generate` is documented to leave the chain free of the code. An exception that stays
  in place keeps its own `code` and `status`, and a withheld error is named `Error`: the code can be read in
  the result, if and only if one of these has it (`OtpService.ScrubHidesIff`). So 502 stays readable in the
  exception of a failed delivery (`OtpService.StatusIsRead`), and any code in an exception that was given it as
  its own (`OtpService.OwnCodeIsRead`). With exceptions of the catalog a code is hidden, if and only if it is
  neither the letter `E` nor part of a status (`OtpService.EveryScrubHidesIff`).
- A storage outage is documented never to leave the recipient locked out with no live code. One caller alone
  is locked out, if and only if the store fails before it has written, the cooldown cannot be cleared either,
  and no older code is live (`OtpLifecycle.LockedOutIff`, `ProtocolRaces.OutageLocksOut`). With several callers
  a release that works takes the entry of another one; in no run does that happen, if and only if there is no
  cooldown (`ProtocolRaces.NeverLockedOutIff`).
- `generate` is documented to release the cooldown when it fails. It keeps it, if and only if no code has the
  configured length or the cooldown could not be cleared (`OtpService.LockKeptIff`).
- The storage contract is documented to keep `maxAttempts` from being bypassed under concurrency. A late
  `update` restores an older count: no code is attempted too often, if and only if verifying consumes the
  entry, or a code has one attempt, or two and the storage hands out the entry itself
  (`ProtocolAttempts.AttemptsPerCodeIff`).
- Echo detection over the whole chain is documented to find what any link quotes. One error is enough to
  defeat it, and `EmailFailure.ChainEchoFreeIff` says for which bodies: of 32 or more characters, for those
  with a line break.

## Model

| member | source | states |
|---|---|---|
| `ProtocolSafety.AlwaysInv` | src/server/services/otp.service.ts:180-271 | Every state of every interleaving satisfies the invariant: tickets and locks are held once, logs are those of the counter and the cooldown, every entry object was built by a generate with at most `maxAttempts` attempts |
| `ProtocolSafety.StepKeepsInv` | src/server/services/otp.service.ts:180-271 | Every step of any caller, failing or not, keeps the invariant |
| `ProtocolSafety.AcceptedWasIssued` | src/server/services/otp.service.ts:230-255 | In every interleaving, an accepted guess matches a code that was issued in the scope and had not expired when the attempt was consumed |
| `ProtocolSafety.AcceptedPlaintext` | src/server/services/otp.service.ts:607-616 | Without a secret, an accepted guess is itself an issued, unexpired code |
| `ProtocolSafety.RejectedWasWrong` | src/server/services/otp.service.ts:242-252 | In every interleaving a rejected guess does not match the entry, and is told a number of remaining attempts from 0 to `maxAttempts - 1`, whatever was counted since |
| `ProtocolSafety.StoredWasIssued` | src/server/services/otp.service.ts:557-572 | Whatever is stored, even after late write-backs, has the code, expiry and ceiling that some generate built, and attempts within the ceiling |
| `ProtocolSafety.AtMostMaxAttemptsCompared` | src/server/services/otp.service.ts:213-229 | Between two resets of the failure counter at most `maxAttempts` verifications reach the comparison, in every interleaving, however many codes are issued |
| `ProtocolSafety.ComparedInWindow` | src/server/providers/in-memory-otp.storage.ts:65-76 | In every window without a clear at most `maxAttempts * (1 + T / ttl)` verifications reach the comparison |
| `ProtocolSafety.AcquiredInWindow` | src/server/services/otp.service.ts:309-334 | In every window at most `1 + T / cooldown` generations, and one for every clear, pass the cooldown |
| `ProtocolSafety.ConsumeIsAtomic` | src/server/providers/in-memory-otp.storage.ts:140-161 | The machine's consume step is the storage operation on the scope, and the caller goes on with the entry it answered |
| `ProtocolSafety.OtherStepsAreAtomic` | src/server/providers/in-memory-otp.storage.ts:171-216 | So are the steps that count a failure, take the cooldown and write an entry back |
| `ProtocolAlone.VerifyAlone` | src/server/services/otp.service.ts:209-256 | From any state, a verification whose caller runs alone ends with the answer, and leaves the entry, cooldown and counter, that the sequential one has |
| `ProtocolAlone.LaggingVerifyAlone` | src/server/services/otp.service.ts:472-485 | A read that lags behind the expiry costs an attempt, and the answer is that there is no code, or that there were too many attempts |
| `ProtocolAlone.GenerateAlone` | src/server/services/otp.service.ts:180-200 | The same of a generate, whichever of its calls fail, before or after they took effect; the code it built an entry for is issued |
| `ProtocolAlone.ConsumeAlone` | src/server/services/otp.service.ts:264-271 | A consumption whose caller runs alone leaves neither entry nor cooldown nor counter |
| `ProtocolAlone.WorldMoves` | src/server/providers/in-memory-otp.storage.ts:117-128 | Between the callers' steps time passes but never runs backwards, an eviction drops the entry, a caller arrives once; nothing else changes |
| `ProtocolRaces.StaysGoneIff` | src/server/services/otp.service.ts:557-572 | An issued code that was stored and is gone is never stored again, in every interleaving, if and only if verifying consumes the entry |
| `ProtocolOrigins.NeverReturns` | src/server/services/otp.service.ts:562-564 | Where verifying consumes, an issued code that has left the store stays out of it, in every interleaving |
| `ProtocolRaces.ConsumedCodeReturns` | src/server/services/otp.service.ts:565-570 | Otherwise, for any two codes some run consumes the first, issues the second, and ends with the first stored and live |
| `ProtocolOrigins.ComparedPerCode` | src/server/services/otp.service.ts:230-255 | Where verifying consumes, at most `maxAttempts` verifications consume an attempt of one issued code, and so at most as many are accepted, in every interleaving |
| `ProtocolAttempts.AttemptsPerCodeIff` | src/server/interfaces/otp-storage.interface.ts:53-58 | No issued code is attempted more often than `maxAttempts` allows, in every interleaving, if and only if verifying consumes the entry, or `maxAttempts` is at most 1, or at most 2 with a storage that hands out the entry itself |
| `ProtocolAttempts.AttemptedTooOften` | src/server/services/otp.service.ts:565-570 | Otherwise, for any code, some run has `maxAttempts + 1` verifications that consumed an attempt of it |
| `ProtocolAttempts.AcceptedOnceIff` | src/server/services/otp.service.ts:230-255 | Every issued code is accepted at most once, in every interleaving, if and only if it has no more than one attempt, whether verifying consumes it or not |
| `ProtocolRaces.AcceptedTwice` | src/server/services/otp.service.ts:253-264 | Otherwise some run accepts one code twice, before either verification has deleted it or written it back |
| `ProtocolRaces.NeverLockedOutIff` | src/server/services/otp.service.ts:336-342 | No failed generate ends with the scope locked and no live code, in all runs, or in all runs in which every release works, if and only if there is no cooldown |
| `ProtocolRaces.LocksOutIff` | src/server/services/otp.service.ts:374-385 | The last step of a release does that, if and only if the cooldown is held, is not cleared by it, and no code is live or it deletes the entry |
| `ProtocolRaces.OutageLocksOut` | src/server/services/otp.service.ts:374-385 | One caller alone, whose store and then whose clearing of the cooldown fail, is locked out with no code |
| `ProtocolRaces.DeliveredCodeIsReleased` | src/server/services/otp.service.ts:527-531 | Some run in which every release works delivers a code whose entry another generate's release then deletes, with the cooldown still held |
| `ProtocolRaces.ReleaseLeavesLockedIff` | src/server/services/otp.service.ts:527-531 | A release that works leaves the scope locked with nothing stored, if and only if somebody took the cooldown between its two steps and still holds it |
| `CounterLog.WindowBound` | src/server/providers/in-memory-otp.storage.ts:270-280 | Over any window without a clear the tickets within the ceiling number at most the ceiling times the lifetimes that fit |
| `CounterLog.LifetimeBound` | src/server/providers/in-memory-otp.storage.ts:65-76 | Within one lifetime of the counter at most the ceiling is admitted |
| `CooldownLog.AcquireBound` | src/server/providers/in-memory-otp.storage.ts:203-216 | Over any window the cooldown is won at most once, once per full length, and once per clear |
| `CooldownLog.WinsAreApart` | src/server/providers/in-memory-otp.storage.ts:203-249 | Two wins that no clear separates lie a full length apart |
| `CooldownLog.HeldSince` | src/server/providers/in-memory-otp.storage.ts:203-216 | After a clear the lock is held, if and only if a win since then has been neither cleared nor outlived |
| `OtpLifecycle.FailedGenerateReleases` | src/server/services/otp.service.ts:336-356 | A failed generate that is released leaves neither entry nor cooldown; a release that stops at its first step leaves the cooldown and at its second the entry, which is the old one if the store failed first; a blocked one changes nothing, a successful one leaves a fresh entry and a held cooldown; the failure counter never changes |
| `OtpLifecycle.LockedOutIff` | src/server/services/otp.service.ts:336-342 | Past a free cooldown, a generate locks its recipient out with no live code, if and only if there is a cooldown, the store fails before it has written, the cooldown cannot be cleared, and no older code is live |
| `OtpLifecycle.RemainingSeconds` | src/server/providers/in-memory-otp.storage.ts:226-238 | The remaining seconds are the time left rounded up, and zero exactly when the cooldown is free |
| `OtpLifecycle.DeliveredCodeVerifies` | src/server/services/otp.service.ts:209-256 | A live code with attempts left verifies exactly when the failure counter is below the ceiling, and what is left afterwards in either mode; the secret may have been switched on since |
| `OtpLifecycle.GenerateThenVerify` | src/server/services/otp.service.ts:180-256 | A delivered code verifies at any time up to its expiry |
| `OtpLifecycle.ExpiredCodeIsGone` | src/server/providers/in-memory-otp.storage.ts:117-128 | One millisecond after its expiry a code is not found, is evicted, and costs no attempt |
| `OtpLifecycle.WrongGuessTold` | src/server/services/otp.service.ts:242-252 | A wrong guess at a live code is told the nearer of the two budgets, and costs both one attempt |
| `OtpLifecycle.SpentCodeIsDropped` | src/server/services/otp.service.ts:230-241 | A code without attempts left is refused and dropped, and the attempt is counted |
| `OtpLifecycle.BudgetSurvives` | src/server/services/otp.service.ts:213-229 | Over every sequence of wrong guesses and generates, failing ones included, the counter is the number of guesses and no code has had more attempts |
| `OtpLifecycle.KthWrongGuess` | src/server/services/otp.service.ts:242-252 | The k-th wrong guess answers `invalid_code` with `maxAttempts - k` remaining, and `max_attempts` beyond the ceiling, wherever new codes were issued |
| `OtpService.OtpService.Generate` | src/server/services/otp.service.ts:180-200 | Does to its scope what the lifecycle says for the code that was drawn, leaves every scope alone that differs in the tenant, the purpose or the normalised recipient, refuses exactly what it must before any storage call, and throws the scrub of what failed, in which that code can be read, if and only if an error of what failed keeps it |
| `OtpService.OtpService.IssueCode` | src/server/services/otp.service.ts:187-197 | Stores and delivers the code that was drawn or releases the scope; with a length no code can have it does nothing, and the cooldown stays taken |
| `OtpService.GeneratesLikeLifecycle` | src/server/services/otp.service.ts:180-200 | With a length that codes can have, scope and answer are those of the lifecycle |
| `OtpService.LockKeptIff` | src/server/services/otp.service.ts:180-197 | A generate that does not succeed past a free cooldown leaves it held, if and only if there is one and no code has the configured length or the cooldown could not be cleared |
| `OtpService.OtpService.Persist` | src/server/services/otp.service.ts:351 | The entry is stored unless the storage fails before it has written |
| `OtpService.OtpService.PersistAndDeliver` | src/server/services/otp.service.ts:343-356 | Throws exactly when the store or the delivery fails, after the release |
| `OtpService.OtpService.FailedOutgoing` | src/server/services/otp.service.ts:374-397 | Releases the scope as far as the storage lets it and returns the scrub of what failed, or of the failed release with that as its cause; the code can be read there, if and only if one of their errors keeps it |
| `OtpService.FailureToReport` | src/server/services/otp.service.ts:379-385 | What failed, if the release went through, and else the failure of the release, which takes what failed as its cause if it can be inspected, has none and takes one; nothing else of any error changes |
| `OtpService.AttachCauseIfAbsent` | src/server/utils/redact.ts:225-234 | The cause is attached exactly when the slot is free and accepts it, and nothing else changes |
| `OtpService.ScrubOutgoing` | src/server/services/otp.service.ts:386-388 | What goes out is the representative or the redacted form of what was thrown, and the code can be read along its causes, if and only if an error of the original chain keeps it |
| `OtpService.ScrubHidesIff` | src/server/utils/redact.ts:236-253 | The same of every scrubbed chain and every value that redaction removes |
| `OtpService.EveryScrubHidesIff` | src/server/utils/redact.ts:479-493 | A generated code can be read in no scrubbed chain whose exceptions have a catalog code and one of given statuses, if and only if it is not the letter E and part of none of the statuses |
| `OtpService.WithheldNameIsRead` | src/server/utils/redact.ts:374-379 | An error that cannot be inspected, whose stand-in shows the letter E |
| `OtpService.StatusIsRead` | src/server/errors/notification-error-codes.ts:32-36 | The exception of a failed delivery, whose status shows the code 502 after the scrub |
| `OtpService.OwnCodeIsRead` | src/server/utils/redact.ts:518 | An exception that was given the code as its own, which shows it after the scrub, for every code |
| `OtpService.CodesAreHideable` | src/server/utils/code-generator.ts:17-22 | Redaction removes every generated code from every text, and only E is part of the name of a withheld error |
| `OtpService.OtpService.ReleaseOtp` | src/server/services/otp.service.ts:527-531 | Clears the cooldown, then deletes the entry |
| `OtpService.OtpService.AcquireCooldownOrThrow` | src/server/services/otp.service.ts:309-334 | Takes a free cooldown or answers the remaining seconds |
| `OtpService.OtpService.Verify` | src/server/services/otp.service.ts:209-256 | Answers and leaves behind what the lifecycle says, refuses exactly what it must, and touches no scope that differs in the tenant, the purpose or the normalised recipient |
| `OtpService.OtpService.CountAttempt` | src/server/services/otp.service.ts:472-485 | Counts an attempt only while a code is live |
| `OtpService.OtpService.Compare` | src/server/services/otp.service.ts:230-255 | Consumes one attempt, compares, and answers the nearer of the two budgets |
| `OtpService.OtpService.FinalizeVerifySuccess` | src/server/services/otp.service.ts:557-572 | Clears the counter, then consumes the entry and its cooldown or marks the entry validated |
| `OtpService.OtpService.Consume` | src/server/services/otp.service.ts:264-271 | Empties the scope, and no scope that differs in the tenant, the purpose or the normalised recipient |
| `OtpService.OtpService.ScopesOfRefs` | src/server/services/otp.service.ts:589-598 | Spellings with one normalised recipient share a scope; scopes that differ in a component have keys of their own, unless the hash collides on them |
| `MemoryStorage.InMemoryOtpStorage.Set` | src/server/providers/in-memory-otp.storage.ts:105-107 | Stores the given object under the key and changes no other scope |
| `MemoryStorage.InMemoryOtpStorage.Get` | src/server/providers/in-memory-otp.storage.ts:117-128 | Answers the stored object while it is live, and evicts it afterwards |
| `MemoryStorage.InMemoryOtpStorage.ConsumeAttempt` | src/server/providers/in-memory-otp.storage.ts:140-161 | Counts the attempt on the shared object and answers that object; drops an expired or exhausted one |
| `MemoryStorage.InMemoryOtpStorage.Update` | src/server/providers/in-memory-otp.storage.ts:171-181 | Replaces what is stored, expired or not, and does nothing when nothing is stored |
| `MemoryStorage.InMemoryOtpStorage.Delete` | src/server/providers/in-memory-otp.storage.ts:190-192 | Removes the entry only |
| `MemoryStorage.InMemoryOtpStorage.TryAcquireCooldown` | src/server/providers/in-memory-otp.storage.ts:203-216 | Wins exactly when the lock is not held, and then holds it |
| `MemoryStorage.InMemoryOtpStorage.GetCooldown` | src/server/providers/in-memory-otp.storage.ts:226-238 | The remaining seconds rounded up; a lapsed cooldown is forgotten |
| `MemoryStorage.InMemoryOtpStorage.ClearCooldown` | src/server/providers/in-memory-otp.storage.ts:247-249 | Removes the cooldown only |
| `MemoryStorage.InMemoryOtpStorage.GetFailures` | src/server/providers/in-memory-otp.storage.ts:270-280 | The unexpired count; a lapsed counter is forgotten |
| `MemoryStorage.InMemoryOtpStorage.RecordFailure` | src/server/providers/in-memory-otp.storage.ts:65-76 | The next ticket, with a restarted lifetime |
| `MemoryStorage.InMemoryOtpStorage.ClearFailures` | src/server/providers/in-memory-otp.storage.ts:85-87 | Removes the counter only |
| `MemoryStorage.InMemoryOtpStorage.Clear` | src/server/providers/in-memory-otp.storage.ts:254-258 | Empties every scope |
| `RedisScope.RunAgreesIff` | src/server/providers/redis-otp.storage.ts:145-218 | In every run in time order the two storages stay alike and answer every call alike, but that a Redis read may still answer an expired entry, if and only if every call observes its condition when it comes |
| `RedisScope.StepAgreesIff` | src/server/providers/redis-otp.storage.ts:95-127 | The same of one call: the exact condition for each of the ten operations, whether or not a key is still there in its last millisecond |
| `RedisScope.GetLagsUnderASecond` | src/server/providers/redis-otp.storage.ts:145-173 | Outside the last millisecond of a key, Redis never answers an entry a second or more after it expired, if entries are set alive, updates keep the expiry and no attempt comes in the key's last millisecond |
| `RedisScope.AttemptAgreesIff` | src/server/providers/redis-otp.storage.ts:95-115 | An attempt is answered alike exactly unless a live entry's key is due and already gone |
| `RedisScope.AcquireAgreesIff` | src/server/providers/redis-otp.storage.ts:245-258 | The cooldown is answered alike exactly unless it is not positive while one is held, or its key is due and still there |
| `RedisScope.GetIsLateIff` | src/server/providers/redis-otp.storage.ts:145-173 | After any run a read can come a second or more after the expiry, if and only if an attempt in the key's last millisecond, an entry set after its expiry or an update that shortens it too far was not undone since, and the key is alive |
| `RedisScope.DeadlineKeptIff` | src/server/providers/redis-otp.storage.ts:108-113 | The script keeps the deadline of the key, if and only if it does not come in its last millisecond |
| `RedisScope.LateAttemptLagsForever` | src/server/providers/redis-otp.storage.ts:108-113 | After an attempt in the last millisecond every later read is late |
| `RedisScope.UpdateRevivesIff` | src/server/providers/in-memory-otp.storage.ts:163-181 | In memory an update makes a read answer where it answered nothing, if and only if an expired entry is still stored and the new one is live |
| `RedisScope.RedisUpdateRevivesIff` | src/server/providers/redis-otp.storage.ts:197-218 | In Redis it never does; an attempt is answered where it was not, if and only if an expired entry's key is still there and the new entry is live |
| `RedisStorage.RedisOtpStorage.Set` | src/server/providers/redis-otp.storage.ts:145-152 | Gives the key the remaining whole seconds rounded up, at least one, and touches no other key |
| `RedisStorage.RedisOtpStorage.Get` | src/server/providers/redis-otp.storage.ts:162-173 | Answers what the key holds |
| `RedisStorage.RedisOtpStorage.ConsumeAttempt` | src/server/providers/redis-otp.storage.ts:95-115 | The script, as one step: the entry counted and rewritten with its deadline, or dropped |
| `RedisStorage.RedisOtpStorage.Update` | src/server/providers/redis-otp.storage.ts:206-218 | Replaces the value of a key that is there and keeps its deadline |
| `RedisStorage.RedisOtpStorage.Delete` | src/server/providers/redis-otp.storage.ts:227-229 | Removes the entry's key only |
| `RedisStorage.RedisOtpStorage.TryAcquireCooldown` | src/server/providers/redis-otp.storage.ts:245-258 | Wins exactly when the key is not there; without a positive length it clears the key and wins |
| `RedisStorage.RedisOtpStorage.ClearCooldown` | src/server/providers/redis-otp.storage.ts:281-283 | Removes the cooldown's key only |
| `RedisStorage.RedisOtpStorage.GetFailures` | src/server/providers/redis-otp.storage.ts:293-296 | The count the key holds, or zero |
| `RedisStorage.RedisOtpStorage.RecordFailure` | src/server/providers/redis-otp.storage.ts:123-127 | The script, as one step: the next ticket, with a restarted lifetime |
| `RedisStorage.RedisOtpStorage.ClearFailures` | src/server/providers/redis-otp.storage.ts:329-331 | Removes the counter's key only |
| `RedisStorage.PutAt` | src/server/providers/redis-otp.storage.ts:333-346 | A value put under a key of one family disturbs no other family of any scope, and no scope that differs in a component |
| `RedisStorage.OthersApart` | src/server/providers/redis-otp.storage.ts:333-346 | A change at one key of a scope is none for scopes that differ in a component |
| `StorageKeys.MemoryKeyCollision` | src/server/providers/in-memory-otp.storage.ts:291-293 | Two scopes with one in-memory key are one scope or show a collision of the hash |
| `StorageKeys.RedisKeyCollision` | src/server/providers/redis-otp.storage.ts:333-346 | The same for each of the three Redis keys, though a purpose may contain the delimiter |
| `StorageKeys.RefusedIff` | src/server/utils/tenant-scope.ts:68-78 | A tenant or recipient is refused, if and only if it is nothing but white space or has a control character |
| `StorageKeys.WhiteSpace` | src/server/utils/tenant-scope.ts:72 | The characters that a trim removes, by their codes |
| `StorageKeys.MemoryScopesApart` | src/server/providers/in-memory-otp.storage.ts:291-293 | In-memory keys are equal exactly for equal scopes, where the hash tells their components apart |
| `StorageKeys.RedisScopesApart` | src/server/providers/redis-otp.storage.ts:333-346 | So are the Redis keys of each family |
| `StorageKeys.FamiliesDisjoint` | src/server/providers/redis-otp.storage.ts:333-346 | No two of the three families share a key within a namespace |
| `StorageKeys.DigestCollision` | src/server/utils/hash.ts:48-54 | Two pairs with one digest are one pair or show a collision |
| `StorageKeys.RawJoinIsAmbiguous` | src/server/utils/hash.ts:12-20 | Joining the raw values would map two accepted pairs to one string |
| `Codes.GenerateOtpCode` | src/server/utils/code-generator.ts:48-64 | Refuses exactly the lengths outside 1 to 32; otherwise a code of the length whose i-th character the i-th draw picks from the alphabet |
| `Codes.DrawnOnce` | src/server/utils/code-generator.ts:48-64 | The draws of the random generator determine the code |
| `Codes.NumericChars` | src/server/utils/code-generator.ts:17-22 | The numeric alphabet is the ten digits, each once |
| `Codes.AlphaChars` | src/server/utils/code-generator.ts:17-22 | The letters are the capitals but I and O, each once |
| `Codes.AlphanumericChars` | src/server/utils/code-generator.ts:17-22 | The mixed alphabet is these letters and the digits from 2 to 9 |
| `Codes.AcceptedGuesses` | src/server/services/otp.service.ts:607-616 | Exactly which guesses a stored code accepts when the secret may have been switched on, off or changed since |
| `Codes.CodeIsNoDigest` | src/server/utils/code-digest.ts:18-19 | No generated code is taken for a digest |
| `Codes.WrongGuessCollides` | src/server/utils/code-digest.ts:33-37 | Accepting another guess than the code shows a collision of the keyed digest |
| `Codes.CodesAreRedactable` | src/server/utils/code-generator.ts:17-22 | No generated code overlaps the redaction marker |
| `Redaction.RedactValues` | src/server/utils/redact.ts:28-52 | The loop over sorted occurrences equals the character-level specification: a covered position is dropped, a group of overlapping occurrences leaves one marker; only the set of values matters |
| `Redaction.CollectSpans` | src/server/utils/redact.ts:29-38 | The sorted spans are exactly the occurrences of the non-empty values |
| `RedactionLaws.RemovesExactly` | src/server/utils/redact.ts:16-22 | A value never survives in any text, among any other values, if and only if it does not overlap the marker |
| `RedactionLaws.NoSurvivor` | src/server/utils/redact.ts:28-52 | Such a value is nowhere in the output |
| `RedactionLaws.OverlapSurvives` | src/server/utils/redact.ts:28-52 | Any other value survives in some text |
| `RedactionLaws.SurvivesAcrossTheMarkerEdge` | src/server/utils/redact.ts:48 | A concrete text in which a value reappears across the edge of a marker |
| `RedactionLaws.DisjointFromMarker` | src/server/utils/redact.ts:11 | A value without a character of the marker does not overlap it |
| `RedactionLaws.Idempotent` | src/server/utils/redact.ts:28-52 | Redacting twice is redacting once, if no value overlaps the marker |
| `RedactionLaws.OutputIsStretches` | src/server/utils/redact.ts:39-51 | The output is the kept stretches joined by markers |
| `RedactionLaws.StretchesAreKept` | src/server/utils/redact.ts:48-51 | Every stretch stands in the original, and none of its positions is covered |
| `RedactionLaws.StretchesCarryNoSecret` | src/server/utils/redact.ts:28-52 | No stretch contains a value, whatever characters it is made of |
| `Echo.CollectEchoedExcerpts` | src/server/utils/redact.ts:169-197 | The nested growing loops cut out, from left to right, the longest echo at every position |
| `Echo.FindLongest` | src/server/utils/redact.ts:172-190 | The longest echo that starts at a position, over all its places in the reference |
| `Echo.ExtendMatch` | src/server/utils/redact.ts:176-184 | The maximal common run of two anchored positions |
| `Echo.WindowStartsInExcerpt` | src/server/utils/redact.ts:153-168 | Every 16-character window of the text that the reference contains starts inside an excerpt |
| `Echo.ExcerptsAreEchoes` | src/server/utils/redact.ts:153-168 | Every excerpt is in both texts and at least 16 characters long |
| `Echo.ScanIsUnique` | src/server/utils/redact.ts:169-197 | The specification of the scan has one answer |
| `Echo.ScrubTransportError` | src/server/providers/smtp-email.provider.ts:411-433 | No stretch of the result shows a declared value, the configured user or password, or 16 consecutive characters of a body; nothing is removed but these, and quotes of at least 16 characters; a message with none of them stays as it is |
| `Echo.ScrubLeavesNothing` | src/server/providers/smtp-email.provider.ts:395-410 | No kept stretch contains any value that is to be removed, or 16 consecutive characters of either body |
| `EmailFailure.WalkChain` | src/server/utils/redact.ts:118-148 | Reads message and stack along the causes in their order, up to a back-edge, a non-error or an error that cannot be read, and terminates on cycles |
| `EmailFailure.ReadOfOne` | src/server/utils/redact.ts:118-148 | Of an error its message is read, and its stack if asked for; of one that cannot be read the marker, and nothing behind it |
| `EmailFailure.ReadInOrder` | src/server/utils/redact.ts:118-148 | What one error has comes before what its cause says, which is nothing for an error already seen and the string form for a value that is no error |
| `EmailFailure.GatherRedactionValues` | src/server/services/email.service.ts:533-551 | The echoed excerpts of both bodies in the whole chain, and the declared values |
| `EmailFailure.WalkIsVisited` | src/server/utils/redact.ts:118-148 | Whatever the scrub walks was read |
| `EmailFailure.ChainCarriesNoEcho` | src/server/services/email.service.ts:524-532 | After the scrub, no kept stretch of any message or stack of the chain contains a declared value, or 16 consecutive characters of a body without line breaks |
| `EmailFailure.ChainEchoFreeIff` | src/server/services/email.service.ts:524-543 | For every body, redaction keeps its 16-character runs out of every chain, if and only if no line break has 16 characters before it and no run escapes behind one |
| `EmailFailure.EchoFreeIff` | src/server/utils/redact.ts:86-96 | The same for the texts of a chain: from any leak a canonical one by two texts is built, which a reader of the body alone can look for |
| `EmailFailure.LongBodiesKeepRunsIff` | src/server/utils/redact.ts:153-168 | For a body of at least 32 characters that condition says that it has no line break |
| `EmailFailure.EqualLinesLeak` | src/server/utils/redact.ts:153-168 | A body of three equal lines of seven or more characters leaks |
| `EmailFailure.LineBreakLeaks` | src/server/services/email.service.ts:538-543 | A line break with 16 characters before or after it is enough: one text quotes the line up to its end, or two quote the lines on both sides |
| `EmailFailure.QuoteStays` | src/server/services/email.service.ts:538-543 | Two texts that the body has on both sides of a line break are left as they are |
| `EmailFailure.PublishedCause` | src/server/services/email.service.ts:260-278 | The cause of a failed send is the scrubbed chain, or the error untouched when there is nothing to scrub |
| `ErrorChain.ScrubValuesFromErrorChain` | src/server/utils/redact.ts:254-282 | Terminates on every chain; every error of the walk has a representative of its own with redacted texts and, of an exception, its contract with a redacted response, wired as the original was; only errors of the chain are touched |
| `ErrorLaws.TextsStayInPlace` | src/server/utils/redact.ts:341-379 | Name, message and stack of what replaces an error are its own, redacted, each in its place; an error that cannot be inspected shows fixed texts; of an exception that stays, code and status are kept and the response redacted entry by entry |
| `ErrorLaws.CauseStaysInPlace` | src/server/utils/redact.ts:291-318 | Its cause is the representative of the error it had, the redacted form of any other value, and none behind an error that cannot be inspected |
| `ErrorLaws.WithheldIff` | src/server/utils/redact.ts:354-380 | An error is withheld, if and only if it cannot be read, or can be stripped and one of its writes throws before one is refused |
| `ErrorLaws.InPlaceIff` | src/server/utils/redact.ts:354-370 | It stays itself, if and only if it can be read and stripped, takes every write, and ignores only those that change nothing |
| `ErrorChain.RegisterLink` | src/server/utils/redact.ts:336-380 | An error that takes and keeps every write is its own representative, one that refuses is copied, one that throws is withheld |
| `ErrorChain.Rewrite` | src/server/utils/redact.ts:354-370 | What became of the error, decided by its writes in their order, and its fields when it stays |
| `ErrorChain.StripExtraProperties` | src/server/utils/redact.ts:500-531 | Succeeds exactly when the response and the options of an exception can be replaced and every extra property deleted; then the exception keeps its code and status, its response is redacted and its options are empty |
| `ErrorChain.StripContract` | src/server/utils/redact.ts:502-518 | Replaces the response of an exception by its redacted form and empties its options, and succeeds exactly when neither resists |
| `ErrorChain.DeleteExtraOwnKeys` | src/server/utils/redact.ts:490-495 | Deletes the added properties one by one, and succeeds exactly when none resists |
| `ErrorChain.CoerceRedacted` | src/server/utils/redact.ts:64-70 | The redacted string form, or the marker |
| `ErrorChain.WireCauses` | src/server/utils/redact.ts:291-318 | Every representative gets the representative of its cause, or the redacted form of a cause that is no error |
| `ErrorChain.ShapeKept` | src/server/utils/redact.ts:236-253 | Step by step the scrubbed chain runs through the representatives of what the original runs through, cycles included |
| `ErrorChain.OriginalsUnreachable` | src/server/utils/redact.ts:236-253 | An original that was replaced cannot be reached from the result |
| `ErrorChain.ChainShowsIff` | src/server/utils/redact.ts:236-253 | Step by step along the chain, a declared value that does not overlap the marker can be read, if and only if the original has it in the code or status of an exception that stays in place, or is withheld and the value is part of `Error` |
| `CloneGraph.CloneRedacted` | src/server/utils/redact.ts:394-432 | Terminates on every finite graph, leaves the source as it was, and answers fresh objects that match exactly the reachable sources one to one, sharing and cycles included, with redacted properties |
| `CloneGraph.CloneReadsLast` | src/server/utils/redact.ts:397-449 | Key by key, the clone of an object answers the clone of the last enumerable property with that redacted key, and nothing where there is none; an object that cannot be listed becomes an empty one |
| `CloneGraph.DefinedInPlace` | src/server/utils/redact.ts:426-430 | A colliding property replaces the earlier one where it stands, and any other comes last |
| `CloneGraph.CloneValue` | src/server/utils/redact.ts:397-415 | The clone of one value, with one target and one job for a new object |
| `CloneGraph.LastWins` | src/server/utils/redact.ts:419-430 | Of properties whose redacted keys collide the last one is read |
| `CloneGraph.CloneCarriesNoSecret` | src/server/utils/redact.ts:382-393 | No key, string or number of a clone shows a declared value, and no key occurs twice |
| `CauseCopy.ToLogSafeCause` | src/server/errors/notification-exception.ts:55-88 | Fresh plain errors only, at most six, shaped as a copy of the chain down to the depth bound; the original is left alone |
| `CauseCopy.CopyShows` | src/server/errors/notification-exception.ts:55-88 | A copy shows name, message and stack of its original, each in its place, or fixed texts where it cannot be inspected, and takes every write; behind it comes the copy of the cause, or its string form, down to the sixth link |
| `CauseCopy.CopyReadsLikeOriginal` | src/server/errors/notification-exception.ts:37-88 | The i-th link of the copy shows the texts of the i-th link of the original's unrolling, for the first six, and then it ends |
| `Patterns.MatchesAreRuns` | src/server/utils/delivery-status.ts:27-34 | The matches that a backtracking search finds are the maximal runs of digits and dots that the pattern describes, in their order |
| `Patterns.MatchIsSound` | src/server/utils/delivery-status.ts:27-34 | Whatever the search finds is described by the pattern and ends its run |
| `Patterns.MatchIsComplete` | src/server/utils/delivery-status.ts:27-34 | And if something is described, the search finds something |
| `Patterns.MatchesAround` | src/server/utils/delivery-status.ts:51-57 | The matches of a text are those before a run, the run itself if it matches, and those behind it |
| `DeliveryStatus.SoleMatchIff` | src/server/utils/delivery-status.ts:51-57 | A match is published exactly when one run, and no different one, is described |
| `DeliveryStatus.ExtractedExactly` | src/server/utils/delivery-status.ts:98-105 | Exactly which codes a text yields, in terms of its runs |
| `DeliveryStatus.ExtractedIsValid` | src/server/utils/delivery-status.ts:70-105 | What is extracted passes the validators |
| `DeliveryStatus.BasicStatuses` | src/server/utils/delivery-status.ts:70-72 | The validator accepts exactly the 200s, the 400s and the 500s |
| `DeliveryStatus.EnhancedForm` | src/server/utils/delivery-status.ts:27-34 | An enhanced status is 2, 4 or 5, and a subject and a detail of one to three digits, between dots |
| `DeliveryStatus.OutsideTheGrammar` | src/server/utils/delivery-status.ts:13-16 | Replacing a run outside the grammar by any other such run changes nothing that is published |
| `DeliveryStatus.PublishedExactly` | src/server/services/email.service.ts:503-522 | A code is published, if and only if no declared value is in it and the provider attached it, or attached no code of the grammar and it is the only one of its kind in the text |
| `DeliveryStatus.PublishedIsHarmless` | src/server/services/email.service.ts:503-522 | Whatever the provider attached or wrote, what is published is in the grammar and contains no declared value |
| `DeliveryStatus.OnlyCollisionsAreDropped` | src/server/utils/delivery-status.ts:124-142 | A code is dropped only if it contains a declared value |
| `Escaping.EscapeIsCharacterwise` | src/server/providers/default-template-renderer.ts:209-216 | Replacements one after the other amount to one map over the characters, if none touches what an earlier one wrote |
| `Escaping.EscapeRoundTrips` | src/server/providers/default-template-renderer.ts:209-216 | So it is for the five of HTML, and reading the entities back gives the value |
| `Escaping.EscapeSpells` | src/server/providers/default-template-renderer.ts:209-216 | Which five characters are escaped, and how each is spelled; every other one stays |
| `Escaping.EscapedHasNoSpecials` | src/server/providers/default-template-renderer.ts:209-216 | No escaped value has an angle bracket or a quote |
| `Template.PlaceholderExactly` | src/server/providers/default-template-renderer.ts:45 | The search finds exactly the placeholders, at most one at a position |
| `Template.PlaceholderIsSpelled` | src/server/providers/default-template-renderer.ts:45 | A placeholder is two braces, white space, a path, white space and two braces |
| `Template.PathChars` | src/server/providers/default-template-renderer.ts:45 | A path is made of ASCII letters, digits, underscores and dots |
| `Template.PlaceholderShows` | src/server/providers/default-template-renderer.ts:144-156 | A placeholder shows its value as it is, or escaped in html; without one it shows nothing, or ends a strict rendering |
| `Template.CharacterShows` | src/server/providers/default-template-renderer.ts:144-156 | A character that begins no placeholder shows itself |
| `Template.TokensTile` | src/server/providers/default-template-renderer.ts:144-156 | There is exactly one way to take a template apart into placeholders and characters that begin none |
| `Template.InterpolationFills` | src/server/providers/default-template-renderer.ts:144-156 | Rendering fills the placeholders of the template and never reads a value for more; it fails only in strict mode, on the first missing variable |
| `Template.MarkupIsTheTemplates` | src/server/providers/default-template-renderer.ts:10-13 | For all data, the angle brackets and quotes of the rendered html are those of the template, in order |
| `Template.OnlyHtmlIsEscaped` | src/server/providers/default-template-renderer.ts:113-127 | Subject and text show the values as they are, the html shows them escaped and keeps its own markup |
| `Template.ResolveTemplate` | src/server/providers/default-template-renderer.ts:130-141 | The template of the requested locale, else of the first fallback that has one, else none |
| `Template.TemplatesApart` | src/server/providers/default-template-renderer.ts:203-206 | Two templates share a key only if name and locale agree, where locales have no colon |
| `Template.ReachedIff` | src/server/providers/default-template-renderer.ts:172-182 | A value is reached, if and only if the keys lead to it one after the other; not behind a missing key, nor behind a text |
| `Template.ResolveNested` | src/server/providers/default-template-renderer.ts:172-182 | The value reached by following own keys, if every step finds an object |
| `Template.SplitJoined` | src/server/providers/default-template-renderer.ts:174 | A dotted path names the keys it was joined from |

## Left out

- Module wiring, option parsing, loggers, startup warnings, and audit writes: they change no modelled state; audit failures are taken as swallowed.
- `getStatus`, `resend`, `NotificationService`, the interceptors, and the React code: reads, aliases, or routing.
- Transports and peers: a delivery or a storage call either works or fails, before or after taking effect.
- Storages without `getFailures`, `recordFailure` and `clearFailures`: the model is of the two built-in storages, which have them.
- OtpService.OtpService.Generate: one moment stands for the whole call; interleaving and passing time are the subject of `Protocol`. A thrown `null` or `undefined` is modelled by its string form.
- Normalising a recipient is a parameter; that a normalised identifier still identifies is not stated.
- Timing: `safeCompare` is equality. SHA-256 and HMAC are functions; results are reductions to a collision.
- Fractional code lengths, which the generator refuses as it refuses lengths out of range.
- JSON encoding, and the removal of a corrupted value by the Redis read.
- The rounding of Redis `TTL` in `getCooldown`: it belongs to the server.
- ProtocolSafety.AlwaysInv: of Redis the machine knows that a read of an entry may lag and that entries are handed out as copies. It takes counters and cooldowns to lapse at their deadline; that a key may still be there in that millisecond is the subject of `RedisScope` alone.
- RedisScope.RunAgreesIff: one clock for client and server, and every key changed only by this storage.
- ErrorChain.ScrubValuesFromErrorChain: the head is an error; a head that is none is flattened as `CoerceRedacted` says. Symbol keys and the stack a fresh copy is born with are not modelled.
- ErrorChain.StripExtraProperties: of the response and the options of an exception the model has the texts and numbers that can be read in them. That a clone shows no more than their redacted forms, its structure, and which of two colliding properties is read are the subject of `CloneGraph`.
- EmailFailure.GatherRedactionValues: a thrown value that is no error.
- CloneGraph.CloneRedacted: accessors are withheld and never run; prototypes are not modelled.
- DeliveryStatus.PublishedIsHarmless: the text of the error chain is a parameter.
- Template.ResolveNested: the string form of a value that is not text.
- Unicode normalisation and surrogates: characters are compared one by one.
