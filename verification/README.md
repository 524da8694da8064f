# Evidence machinery of Once: model and proofs

Once keeps evidence: canonical bytes that are signed, a hash-chained audit trail, daily digests over an audit
log, and services whose guarantees hold over whole runs. This project models that code in Dafny and proves what
it is for. The model keeps the code's branches, constants and error paths; tables are sequences or maps of rows,
an interleaving is a sequence of steps, and SHA-256 is any function into 32 bytes. No theorem assumes that
SHA-256 is injective: each says that the data agree or that two of the byte strings that were hashed collide.

`dafny verify dfyconfig.toml` checks everything.

| files | subject |
|---|---|
| `Json`, `CanonicalJson`, `CanonicalParser`, `CanonicalIdentity`, `CanonicalText`, `CanonicalScheme` | the hand-written canonical encoder, a reader that undoes it, what its bytes identify, and the text it has to produce |
| `AuditTrail`, `HashedText`, `AuditAppend`, `AuditSession` | the chained rows, what the hashed text names, concurrent appends, one session's append |
| `AuditChain`, `AuditEvidence`, `AuditTampering`, `AuditWindows` | the verifier's loop, what a clean report proves, where tampering shows, windows that add up |
| `AuditExport`, `AuditDigest` | the paged export and the daily digest chain |
| `Redaction` | the redactor in front of the chain hash |
| `RefreshTokens` | token rotation as interleaved requests |
| `Idempotency`, `Billing`, `EmailCodes`, `EmailGuesses`, `EmailOverlap`, `EmailLimits`, `KeyCache`, `Ulid` | services with guarantees over runs, and the identifier text |
| `Wrappers`, `Lex`, `KeyedSort`, `Text`, `Calendar`, `Tables` | options, orders, sorting, text encodings, dates, queries |

## What the code does differently from what is written about it

- `verify_chain` says it never raises on tampering (`backend/app/services/audit_chain.py:40-43`). It raises exactly if
  a row in sequence cannot be hashed: its previous hash is not hexadecimal, its payload column makes no dictionary, or
  the encoder refuses the core, as it does integers beyond 2**53 - 1 (`AuditChain.VerifyChain`,
  `AuditTampering.UnhashableRowRaises`, `CanonicalScheme.PayloadsThatRaise`). An altered row gives a break if its
  content still encodes, and makes the replay raise otherwise (`AuditTampering.AlterationIsLocalised`).
- The payload column is any JSON, and is hashed as the dictionary Python makes of it. A list of pairs is hashed like the
  dictionary with those entries, and everything that counts as false like no payload, so such changes of the column
  are not reported (`AuditTrail.PayloadsHashedAlike`, `AuditTampering.SameEventIsNotNoticed`).
- The same docstring says that `valid` means the requested window was contiguous. Rows missing at the end of the
  window are not noticed, so cutting off the tail stays clean (`AuditTampering.DeletionIsLocalised`).
- `docs/AUDIT.md:37` gives row 1 the previous hash `"0"*64`, and lines 69-75 hash more columns with the previous
  hash last. The code starts from `sha256("once-audit-genesis-" + tenant)`, puts the decoded previous hash first
  and hashes ten fields; the e-mail, resource label, IP address and user agent are not covered
  (`AuditTampering.AnnotationsAreNotCovered`).
- The comment at `backend/tests/test_audit_chain.py:61` says that later rows mismatch after one row was altered. The
  replay goes on from the stored hash, so exactly one break is reported (`AuditTampering.AlterationIsLocalised`). If
  the altered row is hashed again, the break is at its successor, and none is reported at the head of the chain
  (`AuditTampering.RehashingIsLocalised`).
- A daily digest fails its verification when the digest of the day before is recorded after it was computed, with no
  row touched; that the days are recorded in ascending order does not help (`AuditDigest.LatePredecessorBreaksVerification`,
  `AuditDigest.EarlyComputingBreaksVerification`).
- The subscription documentation calls `canceled` terminal (`docs/BILLING.md:67`). Webhooks leave it, exactly when
  they carry another status (`Billing.CanceledIsLeftByWebhooks`). The `billing_grace_warning` flag of
  `backend/app/services/billing_service.py:17` is not set anywhere.
- `is_active` follows the status of a tenant's subscription if and only if every opposite decision about the tenant
  has been followed by one for it (`Billing.FlagMatchesUnlessOverruled`). With one subscription only a write from
  outside billing can overrule it; with two, the end of the old one deactivates a tenant whose new one is active
  (`Billing.OldSubscriptionShutsOutTenant`).
- `docs/ONBOARDING.md:60` promises five attempts for a code. The cap holds if and only if callers keep the changes of
  refused verifications and no two verifications of one code overlap (`EmailOverlap.CapIsExact`). Neither is the case:
  the onboarding endpoint (`backend/app/api/v1/onboarding.py:433`) lets the error of a wrong code pass, and `get_db`
  (`backend/app/db.py:91`) then rolls the attempt back, so wrong guesses are unlimited
  (`EmailGuesses.UnlimitedGuesses`); and attempts are read and written without a lock, so overlapping ones would be
  too (`EmailOverlap.UnlimitedOverlappingGuesses`).
- `docs/ONBOARDING.md:61` calls codes single-use. Two overlapping verifications are both accepted
  (`EmailOverlap.BothAccepted`); once an acceptance is committed, no later one is
  (`EmailOverlap.NoGuessAfterAcceptance`).
- `docs/ONBOARDING.md:61` lets codes expire after 30 minutes; the default is 15 (`backend/app/config.py:120`). In the
  model the time is a parameter.
- The hourly limit on codes counts rows by the database's time stamp against the process's clock, and inserts later.
  It holds for intervals of a given length if and only if requests for one address do not overlap and the length is at
  most an hour less the lag of the stamps (`EmailLimits.LimitIsExact`). Stamps lag when the database stamps a row with
  the start of its transaction.
- An idempotency entry is found by tenant and key; method and path play no part. Requests without a tenant share
  entries with a tenant named `anon` (`Idempotency.RequestsShareEntry`).
- Two requests with one idempotency key that overlap both reach the handler; nothing is reserved while the first is
  under way (`Idempotency.ReachesHandlerUnlessKept`, `Idempotency.BothReachHandler`).
- Rotation and logout revoke one token. A replayed token is refused, and its family goes on
  (`RefreshTokens.OnlyItsOwnRequestRevokes`).

## Model

| member | source | states |
|---|---|---|
| CanonicalParser.ReadEncoded | verifier/app/canonical.py:57-123 | reading the printed form of a value, followed by anything that does not start with a digit, gives the value with members in key order and leaves the rest untouched |
| CanonicalIdentity.ReadBack | verifier/app/canonical.py:57-123 | the same up to equality of Python values: the reader returns an equal value and exactly the suffix |
| CanonicalParser.EncodingIsPrefixFree | verifier/app/canonical.py:57-131 | two encodings with suffixes that give one text have equal normal forms and equal suffixes |
| CanonicalParser.ReadEscapedBody | verifier/app/canonical.py:57-65 | escaping a string is undone by reading it, for every string and suffix |
| CanonicalParser.ReadPrintedNumber | verifier/app/canonical.py:71-72 | the decimal text of an integer is read back; on which integers Python prints none is part of LegacyEncode |
| CanonicalText.LegacyEncode | verifier/app/canonical.py:96-131 | the recursive printer with its joining loops and its sort raises exactly on integers too long for Python to print, and otherwise prints the one canonical text of the value, character by character, from which an equal value and nothing more is read back |
| CanonicalText.TextIsUnique | verifier/app/canonical.py:57-123 | the canonical text said without an encoder (literals, escapes, decimals without a zero in front, members once each in code-unit order) is had by exactly one text for each value, the one that is printed |
| CanonicalText.EscapeIsUnique | verifier/app/canonical.py:49-65 | each character has one escape: a two-character one if it has one at all, `\u00` and two lower-case digits if it is another control character, itself otherwise |
| CanonicalText.ShortEscapes | verifier/app/canonical.py:50-58 | the seven escapes of two characters, one by one; every such escape that is read is the one that is printed |
| CanonicalText.ControlEscape | verifier/app/canonical.py:64 | the other control characters are printed with four lower-case hexadecimal digits |
| CanonicalText.DecimalIsUnique | verifier/app/canonical.py:71-72 | an integer has one decimal text without a zero in front, the one that is printed |
| CanonicalText.PrintedIntegers | verifier/app/canonical.py:71-72 | Python prints an integer if and only if its magnitude is below ten to the power of 4300 |
| CanonicalText.SafeIntegers | backend/app/utils/canonical_json.py:37-42 | the library takes an integer if and only if it lies strictly between the two powers 2**53 |
| CanonicalIdentity.MembersInCodeUnitOrder | verifier/app/canonical.py:115 | sorting by UTF-16BE bytes is strictly ascending UTF-16 code-unit order (RFC 8785 section 3.2.3) |
| CanonicalIdentity.EncodeIdentifiesValue | verifier/app/canonical.py:96-123 | two values have one encoding if and only if they are equal, whatever the insertion order at any depth |
| CanonicalIdentity.LegacyBytesIdentifyValue | verifier/app/canonical.py:126-131 | the same for the UTF-8 bytes that are signed |
| CanonicalText.VerifyCanonicalMatch | verifier/app/canonical.py:134-151 | a signature is accepted exactly if it covers the library's bytes or the UTF-8 bytes of the canonical text, where either encoder may raise; skipping the second check for equal bytes loses nothing |
| CanonicalIdentity.SameValueSameInts | backend/app/utils/canonical_json.py:37-44 | equal values hold the same integers, so an encoder that refuses some takes both or neither |
| AuditTrail.RefusingIsCanonical | backend/app/utils/canonical_json.py:34-44 | the encoder that refuses some integers encodes equal values alike, or refuses both, and different values differently |
| CanonicalScheme.RfcChainIsSound | backend/app/utils/canonical_json.py:34-44 | the backend's encoder meets all that the theorems about the chain ask of it |
| CanonicalScheme.RefusingIsRoomy | backend/app/services/audit_logger.py:87-106 | the canonical core takes at least the bytes of the tenant id in it, so no row hashes the genesis bytes of its tenant |
| CanonicalScheme.PayloadsThatRaise | backend/app/services/audit_logger.py:96-106 | without a payload a core encodes; with the integer 2**53 in it, or a list that makes no dictionary, it does not |
| AuditTrail.CoreIdentifiesEvent | backend/app/services/audit_logger.py:69-98 | an event that encodes has the canonical bytes of another if and only if all ten hashed fields agree, the payload as the dictionary made of the column |
| HashedText.CoreTextNamesEvent | backend/app/services/audit_logger.py:69-98 | a text is the canonical core of an event if and only if it reads back as an object with exactly the ten names, each with the event's own column under it |
| HashedText.HashNamesEvent | backend/app/services/audit_logger.py:101-107 | a row carries the right hash if and only if it can be hashed and its hash is SHA-256 of the decoded previous hash followed by such a text of its own columns |
| HashedText.EncodesWhen | backend/app/services/audit_logger.py:96-106 | an event can be hashed exactly if its payload makes a dictionary in which every integer is exact in a double |
| HashedText.GenesisIsNamed | backend/app/models/audit_log.py:96 | a tenant's chain starts from SHA-256 of the named prefix and the tenant's identifier |
| AuditTrail.PayloadsHashedAlike | backend/app/services/audit_logger.py:96 | pairs are hashed as the dictionary they make, everything that counts as false as no payload, and a list of numbers makes none |
| AuditTrail.PairsInLists | backend/app/services/audit_logger.py:96 | which elements of a list count as pairs, and the key and value each gives |
| AuditTrail.DictHoldsLast | backend/app/services/audit_logger.py:96 | in the dictionary made of a list each key has the value of the last pair with that key |
| AuditTrail.PayloadsThatMakeNoDictionary | backend/app/services/audit_logger.py:96 | making a dictionary raises exactly for true, other numbers than 0, text that is not empty, and a list with an element that is no pair |
| AuditEvidence.PreimageIdentifiesRow | backend/app/services/audit_logger.py:101-107 | equal hashed bytes mean equal previous hash and equal hashed fields |
| AuditAppend.InvHolds | backend/app/services/audit_logger.py:110-218 | the invariant of concurrent appends holds in every reachable state: committed, inserted and prepared rows hash correctly and link to rows that were there, and nobody's inserts clash |
| AuditAppend.EveryStateVerifies | backend/app/models/audit_log.py:107-112 | in every interleaving, with aborts and lost races, each tenant's committed rows sit at 1 to n, start at its genesis, link, hash correctly and verify cleanly |
| AuditAppend.CommittedOnlyGrows | backend/app/services/audit_logger.py:176-197 | committed rows are never changed or removed by any step |
| AuditAppend.AloneAppends | backend/app/services/audit_logger.py:151-218 | on a table in good order an append without a rival succeeds, at the position after the tenant's last row, if and only if its core encodes and neither its identifier nor its hash is taken |
| AuditAppend.TailIsLastRow | backend/app/services/audit_logger.py:110-124 | the next row links to the tenant's row with the highest position and takes the position after it, or starts from genesis at 1 if there is no row |
| AuditAppend.TakenHashCollides | backend/app/models/audit_log.py:178 | a fresh event whose hash is taken has made SHA-256 collide with a stored row |
| AuditAppend.AppendKeepsGood | backend/app/services/audit_logger.py:151-197 | such an append leaves the table in good order |
| AuditSession.Session.RecordAuditEvent | backend/app/services/audit_logger.py:127-218 | whatever one session's append answers, every tenant's chain verifies afterwards; it answers with the event, its payload redacted, at the tenant's next position and with the hash of a text that names its columns, or with nothing exactly if the payload makes no dictionary, the core does not encode or a unique column clashes |
| AuditSession.Session.Insert | backend/app/services/audit_logger.py:161-218 | tail, hash and insert give a row with the columns it was given and the hash of a text that names them, or leave the table as it was where hashing or a unique column fails |
| AuditSession.SecretsDoNotReachTheHash | backend/app/services/audit_logger.py:156-174 | events that differ only under sensitive keys are both hashed, and alike after any row, or neither is |
| AuditChain.CheckRow | backend/app/services/audit_chain.py:100-137 | the checks on a row in sequence report a wrong link and a wrong hash, each with the row's own columns and what was expected, and raise exactly for an unreadable link, a payload that makes no dictionary or a core that does not encode |
| AuditChain.Replay | backend/app/services/audit_chain.py:73-140 | the loop with its re-synchronisation reports, in order, what each row and its predecessor give by themselves, and raises exactly if a row in sequence cannot be hashed |
| AuditChain.ReportsTell | backend/app/services/audit_chain.py:77-140 | what is reported of a row: a gap if it does not follow its predecessor's position, and otherwise which of link and hash is wrong |
| AuditChain.AnchorIsLastBefore | backend/app/services/audit_chain.py:57-73 | the first row of a window must link to the tenant's last row before it, or to genesis if there is none or the window starts at 1 |
| AuditChain.VerifyChain | backend/app/services/audit_chain.py:31-161 | the full result: anchor, breaks, rows checked, positions, and `valid` exactly if the window verifies cleanly |
| AuditChain.QuietMeansLinked | backend/app/services/audit_chain.py:77-142 | no breaks if and only if every row is at its position, linked to the one before and hash-correct |
| AuditChain.CleanMeansIntact | backend/app/services/audit_chain.py:45-142 | the same said of the table without any order: every row in the window is hash-correct and is first and anchored, or has its predecessor in the window |
| AuditChain.WindowRowsIsWindow | backend/app/services/audit_chain.py:45-54 | the query gives exactly the tenant's rows in the window, by strictly rising position |
| AuditEvidence.WalkBack | backend/app/services/audit_logger.py:101-107 | two chains that share a hash anywhere agree on everything before it and on their length, or exhibit a collision |
| AuditEvidence.TamperEvidence | backend/app/services/audit_chain.py:77-142 | two tables that verify cleanly from position 1 and end in one hash agree in every hashed field at every position, or exhibit a collision |
| CanonicalScheme.RfcTamperEvidence | backend/app/services/audit_chain.py:77-142 | the same of the backend's encoder with no assumption left: equal tenant and equal length follow from equal head hashes, or SHA-256 collides |
| AuditTampering.AlterationIsLocalised | backend/app/services/audit_chain.py:113-140 | altering hashed content of one row of a valid chain gives exactly one break, `this_hash_mismatch` at that row, or a collision, if the new content encodes, and raises if and only if it does not |
| AuditTampering.AlterationsAreLocalised | backend/app/services/audit_chain.py:113-140 | altering any rows at once gives exactly one `this_hash_mismatch` for each, in order, or a collision, and raises if and only if some row no longer encodes |
| AuditTampering.RehashingIsLocalised | backend/app/services/audit_chain.py:100-111 | altering a row and hashing it again gives exactly one break, `prev_hash_mismatch` at its successor, and none at the head of the chain |
| AuditTampering.DeletionIsLocalised | backend/app/services/audit_chain.py:82-98 | deleting a block gives exactly one break, `position_gap` at its successor, and none if there is no successor |
| AuditTampering.UnhashableRowRaises | backend/app/services/audit_chain.py:113-125 | overwriting a row of a valid chain makes the replay raise if and only if its link is unreadable, its payload makes no dictionary or its core does not encode |
| AuditTampering.UnreadableLinkRaises | backend/app/services/audit_chain.py:125 | overwriting a link alone makes the replay raise if and only if the new text is not hexadecimal |
| AuditTampering.FittingLinkRaises | backend/app/models/audit_log.py:131-136 | for every event that encodes: its chain of one row verifies, and raises once its link is overwritten with a certain text of the 64 characters the column takes |
| AuditTampering.RefusedPayloadRaises | backend/app/services/audit_chain.py:113-125 | the same once its payload is overwritten with one that does not encode |
| AuditTampering.SameEventIsNotNoticed | backend/app/services/audit_chain.py:113-126 | changing columns so that the hashed fields stay as they are changes no report |
| AuditTampering.AnnotationsAreNotCovered | backend/app/services/audit_chain.py:113-124 | changing the columns outside the core changes no report |
| AuditWindows.WindowsCompose | backend/app/services/audit_chain.py:56-76 | after `[a..m]` has verified with all its rows, `[m+1..b]` verifies if and only if `[a..b]` does |
| AuditExport.IterAuditRows | backend/app/services/audit_export_service.py:61-109 | with a fresh table for every page: output strictly ascending by time and identifier, only rows of the tenant from the start, inclusive, to the end, exclusive, that were there, and every such row present throughout |
| AuditExport.FixedTableExport | backend/app/services/audit_export_service.py:81-109 | on a fixed table the loop ends and equals filter-then-sort for every page size of at least 1 |
| AuditExport.BeyondIsAfter | backend/app/services/audit_export_service.py:90-99 | the keyset condition is the order of `(occurred_at, id)` |
| AuditDigest.DigestService.EnsureDailyDigest | backend/app/services/audit_hash_service.py:114-165 | returns the recorded row; otherwise raises exactly if the encoder refuses the day, and records SHA-256 of a text that names the day's rows and the digest of the day before, unless another worker's insert comes first and wins |
| AuditDigest.DigestService.VerifyDailyDigest | backend/app/services/audit_hash_service.py:168-216 | tells a missing digest, a day that does not encode, a digest or predecessor that is not that of the day's rows as they are, and a match apart |
| AuditDigest.EnsureIsIdempotent | backend/app/services/audit_hash_service.py:126-135 | ensuring a recorded day again changes nothing, and ensuring any day changes no recorded one |
| AuditDigest.DisciplinedRunsVerify | backend/app/services/audit_hash_service.py:97-216 | however workers overlap: if no day is recorded once the next day's digest is computed, and rows are frozen from the computing on, every recorded day verifies after every run |
| AuditDigest.EarlyComputingBreaksVerification | backend/app/services/audit_hash_service.py:137-149 | a worker that computes a day before the previous one is recorded, and records it after, leaves a day that does not verify |
| AuditDigest.EnsureIsComputeAndRecord | backend/app/services/audit_hash_service.py:137-149 | ensuring a day is computing and recording it with nothing in between |
| AuditDigest.LatePredecessorBreaksVerification | backend/app/services/audit_hash_service.py:73-84 | recording the day before a verified day makes that day fail, though no row changed |
| AuditDigest.VerifiedUnlessPredecessorIsLate | backend/app/services/audit_hash_service.py:73-84 | with frozen rows a verified day stays verified if and only if the step does not record its predecessor |
| AuditDigest.DictIdentifiesLog | backend/app/services/audit_export_service.py:112-130 | two rows project to equal dictionaries if and only if they agree in all nine fields |
| AuditDigest.PayloadIdentifiesDay | backend/app/services/audit_hash_service.py:87-94 | the digested payload determines the previous digest and the day's rows, in order |
| AuditDigest.DigestTextNamesDay | backend/app/services/audit_hash_service.py:87-94 | a text is what is hashed for a day if and only if it reads back as the previous digest and the rows, in order, each with exactly the nine names and its own columns under them |
| AuditDigest.DayRowsAreDayRows | backend/app/services/audit_hash_service.py:58-70 | the rows of a day are the tenant's rows of that date, by time and then by identifier |
| AuditDigest.ComputesWhen | backend/app/services/audit_hash_service.py:87-111 | a day can be computed exactly if every integer in the metadata of its rows is exact in a double |
| AuditDigest.DigestChainEvidence | backend/app/services/audit_hash_service.py:87-111 | two verified runs of consecutive days that end in one digest have the same rows every day, or a pair of days collides |
| AuditDigest.LateRowIsNoticed | backend/app/services/audit_hash_service.py:200-215 | a row added to a verified day makes it mismatch, or raise if the encoder refuses it, or collides |
| Calendar.WindowsTile | backend/app/services/audit_hash_service.py:52-55 | an instant lies in the window of a day if and only if that is its date, so windows tile the time line |
| Calendar.IsoInjective | backend/app/services/audit_logger.py:61-66 | different instants have different texts |
| Calendar.IsoNumbers | backend/app/services/audit_logger.py:61-66 | the text of an instant holds its fields in order as zero-padded decimals, microseconds only if there are any |
| Calendar.NextDayIsNext | backend/app/services/audit_hash_service.py:52-55 | there is no day between a day and the one a day later, over month ends and leap years |
| Calendar.TimeOrder | backend/app/services/audit_hash_service.py:61-67 | instants are ordered by date and then by the microseconds since midnight |
| Redaction.IsSensitiveKey | backend/app/middleware/secrets_redaction.py:117-124 | a key is sensitive exactly if its lower-case form is not whitelisted and contains a needle |
| Redaction.SecretsHaveNames | backend/app/middleware/secrets_redaction.py:36-124 | a key that holds one of the listed words in lower case is sensitive, whatever stands around the word, unless it is one of the whitelisted names |
| Redaction.ShortKeysAreOpen | backend/app/middleware/secrets_redaction.py:117-124 | a key too short for any of the words is not sensitive |
| Redaction.EmailIsMasked | backend/app/middleware/secrets_redaction.py:145-168 | text under the key `email`, in whatever case, is masked, under other keys that are not sensitive swept, and beyond the depth guard replaced |
| Redaction.WalkNode | backend/app/middleware/secrets_redaction.py:145-168 | the recursion with its loops computes the redaction that the theorems are about, by the rules of the middleware |
| Redaction.RedactionHidesSecrets | backend/app/middleware/secrets_redaction.py:145-168 | trees that differ only under sensitive keys redact to equal trees |
| Redaction.SecretsAreReplaced | backend/app/middleware/secrets_redaction.py:148-153 | whatever a sensitive key holds is replaced, wherever the key is reached |
| Redaction.RedactionKeepsFrame | backend/app/middleware/secrets_redaction.py:145-168 | outside replaced subtrees every key, list length and scalar other than a string is kept, in place |
| Redaction.DepthIsGuarded | backend/app/middleware/secrets_redaction.py:146-147 | however deep the payload, the result nests no deeper than the guard |
| RefreshTokens.EveryStateIsSound | backend/app/services/auth_service.py:179-317 | the invariant of interleaved refreshes and logouts holds in every reachable state |
| RefreshTokens.ExchangedAtMostOnce | backend/app/models/revoked_refresh_token.py:39 | whatever is interleaved, a refresh token is exchanged at most once |
| RefreshTokens.RevokedIsNeverExchanged | backend/app/services/auth_service.py:246-268 | a token whose revocation has committed is never exchanged afterwards, not even by a request already past the denylist check |
| RefreshTokens.FamilyHasOneLiveToken | backend/app/services/auth_service.py:246-270 | each login's family has at most one token that is not revoked, at any time |
| RefreshTokens.TokensKeepUserAndTenant | backend/app/services/auth_service.py:62-73 | every token has its login's user and tenant, and one that was not issued at login replaced a revoked token in a recorded exchange |
| RefreshTokens.LogoutIsListed | backend/app/services/auth_service.py:273-317 | after a logout was answered with success the token is on the denylist for good, unless its user or tenant is deleted |
| RefreshTokens.LogoutIsEffective | backend/app/services/auth_service.py:273-317 | in either case the token is never exchanged afterwards, not even by a request in flight |
| RefreshTokens.OnlyItsOwnRequestRevokes | backend/app/services/auth_service.py:211-222 | a token goes out of use only by the commit of a request that presented it; refusing a replay leaves its family's live token |
| RefreshTokens.BarredGetsNoToken | backend/app/services/auth_service.py:224-244 | a user who is disabled, or has lost the membership, gets no token by exchange until reinstated, once no request is past that check |
| RefreshTokens.RefreshAloneIsARun | backend/app/services/auth_service.py:179-270 | a refresh that runs alone is one of the interleavings: it begins, is not aborted, and ends with exactly that answer and that state |
| RefreshTokens.LogoutAloneIsARun | backend/app/services/auth_service.py:273-317 | the same of a logout |
| RefreshTokens.AuthService.Refresh | backend/app/services/auth_service.py:179-270 | an unlisted token of an active member is put on the denylist and exchanged for its child; each failing check gives its error, in order, and changes nothing |
| RefreshTokens.AuthService.RevokeRefreshToken | backend/app/services/auth_service.py:273-317 | a token that names itself and its tenant is on the denylist afterwards, once, and the answer is success; any other is refused and nothing changes |
| Idempotency.ScopedKeyInjective | backend/app/middleware/idempotency.py:63-70 | for valid keys two scoped keys are equal if and only if tenant and key are, whatever the tenants are called |
| Idempotency.RequestsShareEntry | backend/app/middleware/idempotency.py:214-220 | requests share an entry exactly if keys and tenants agree, where no tenant and `anon` are one |
| Idempotency.KeyedRequests | backend/app/middleware/idempotency.py:227-259 | a request goes through the store if and only if its verb is POST, PATCH, PUT or DELETE, its path is not excluded and its header holds a valid key |
| Idempotency.KeyCharacters | backend/app/middleware/idempotency.py:63-70 | which texts are valid keys, by length and characters |
| Idempotency.StripTakesOffSpace | backend/app/middleware/idempotency.py:230 | the header is taken without the white space at its ends, and nothing else is taken off |
| Idempotency.StoringCalls | backend/app/middleware/idempotency.py:284-312 | an answer is stored exactly for a keyed request without an unexpired entry whose status is from 200 to 299 |
| Idempotency.InMemoryIdempotencyStore.Get | backend/app/middleware/idempotency.py:95-105 | gives the entry before its expiry, drops it from then on |
| Idempotency.InMemoryIdempotencyStore.Set | backend/app/middleware/idempotency.py:107-110 | stores the entry for the lifetime, of one second at least |
| Idempotency.IdempotencyMiddleware.Dispatch | backend/app/middleware/idempotency.py:222-326 | by verb, path and header: the bypass, both refusals of a key, the replay, the conflict and the forwarded answer, with what is kept of it and until when |
| Idempotency.HandlerRunsOnce | backend/app/middleware/idempotency.py:260-312 | after a success no POST, PATCH, PUT or DELETE with its tenant and key reaches the handler before the expiry, on any path that is not excluded; the same body is replayed, another one gets 422 or collides |
| Idempotency.AnswersStayWithTenant | backend/app/middleware/idempotency.py:260-282 | a keyed request that does not reach the handler is answered from an unexpired success of the same tenant and key |
| Idempotency.ReachesHandlerUnlessKept | backend/app/middleware/idempotency.py:260-312 | however requests overlap, the handler is called for a keyed request if and only if no unexpired success of its tenant and key was stored before it asked |
| Idempotency.OverlappingAnswer | backend/app/middleware/idempotency.py:260-282 | otherwise the reply is the replay of the success stored last, or a conflict if the bodies' hashes differ |
| Idempotency.BothReachHandler | backend/app/middleware/idempotency.py:261-284 | for two requests with one key that both ask before either has stored the handler is called twice |
| Idempotency.ReplayRepeatsAnswer | backend/app/middleware/idempotency.py:275-312 | the replay has the status, the media type or JSON by default, all headers but four and its own mark, and the body exactly if it is UTF-8 text |
| Billing.BillingService.TransitionStatus | backend/app/services/billing_service.py:262-307 | raises exactly for a strict transition that is not allowed and changes nothing then; otherwise writes the row and the tenant flag |
| Billing.BillingService.ApplyGracePeriod | backend/app/services/billing_service.py:310-337 | the sweep as a step of the runs |
| Billing.BillingService.PauseSubscription | backend/app/services/billing_service.py:340-345 | raises unless active or paused |
| Billing.BillingService.ResumeSubscription | backend/app/services/billing_service.py:348-353 | raises only if canceled |
| Billing.BillingService.UpsertSubscriptionFromStripe | backend/app/services/billing_service.py:369-410 | creates the row where there is none, stamps the cancellation, moves the status if it differs, and gates the tenant either way |
| Billing.BillingService.HandleCheckoutCompleted | backend/app/services/billing_webhooks.py:131-169 | the checkout webhook as a step of the runs; raises exactly if the customer belongs to another tenant or a row would be inserted for a tenant there is not |
| Billing.BillingService.HandleSubscriptionEvent | backend/app/services/billing_webhooks.py:172-204 | the subscription webhooks as steps of the runs; raises exactly if a row would be inserted for a tenant there is not |
| Billing.BillingService.HandleInvoiceEvent | backend/app/services/billing_webhooks.py:207-259 | the invoice webhooks as steps of the runs |
| Billing.RowsStayGood | backend/app/services/billing_service.py:292-301 | in every run past-due rows carry a start, active ones none, canceled ones a cancellation |
| Billing.PastDueSinceIsSpellStart | backend/app/services/billing_service.py:296-299 | in every run `past_due_since` is the time of the step that began the current unbroken past-due spell |
| Billing.SweepWaitsForGrace | backend/app/services/billing_service.py:322-336 | a sweep moves a past-due row to unpaid if and only if the grace period has passed since that step |
| Billing.OperatorStepsAreAllowed | backend/app/services/billing_service.py:75-126 | pausing, resuming and sweeping move along allowed transitions only |
| Billing.OperatorsNeverLeaveCanceled | backend/app/services/billing_service.py:123-125 | runs of such steps never leave `canceled` |
| Billing.WhereStatusesComeFrom | backend/app/services/billing_service.py:75-126 | the transition table read the other way: from which statuses each status may be reached |
| Billing.CanceledIsLeftByWebhooks | backend/app/services/billing_webhooks.py:131-259 | a canceled row is left exactly by a webhook that passes its handler's guards, names the row and carries another status |
| Billing.StepWrites | backend/app/services/billing_service.py:292-305 | every operation writes exactly the row, tenant and status that its guards tell beforehand, by a lawful step, and the flags follow |
| Billing.DecisionsOfStatuses | backend/app/services/billing_service.py:233-249 | active and trialing set the flag of a tenant, also one that was off, canceled clears it, and the other statuses leave it alone |
| Billing.FlagHasReason | backend/app/services/billing_service.py:233-249 | in every run `is_active` is what the last operation that decides about the tenant decided, or the initial flag if none did |
| Billing.MatchStep | backend/app/services/billing_service.py:233-249 | one step: a flag that matches a deciding status still does afterwards, if and only if the step does not decide the opposite for the tenant without writing that row |
| Billing.FlagMatchesUnlessOverruled | backend/app/services/billing_service.py:233-249 | any number of subscriptions, every run: `is_active` follows a deciding status if and only if every opposite decision about the tenant has been followed by one for it |
| Billing.OverruledByAnother | backend/app/services/billing_service.py:246-249 | what overrules a subscription is a write of another one, or of the flag itself |
| Billing.SingleSubscriptionDecides | backend/app/services/billing_service.py:233-249 | for a tenant with one subscription `is_active` follows every deciding status, if and only if no write from outside billing overruled it |
| Billing.OldSubscriptionShutsOutTenant | backend/app/services/billing_service.py:246-249 | with two subscriptions it does not: two checkouts and the end of the old subscription deactivate a tenant whose new one is active |
| EmailCodes.EmailVerificationService.CountCodesInLastHour | backend/app/services/email_verification_service.py:84-92 | the number of rows for the address stamped at or after the cutoff |
| EmailCodes.EmailVerificationService.IssueCode | backend/app/services/email_verification_service.py:95-136 | under the limit of the last hour adds one row for the normalised address, unconsumed and without attempts, with the hash of a six-digit code and its expiry, and nothing otherwise |
| EmailCodes.EmailVerificationService.LatestUnconsumed | backend/app/services/email_verification_service.py:139-147 | a newest row of the address, and tenant if given, that is not consumed; none exactly if there is none |
| EmailCodes.EmailVerificationService.VerifyCode | backend/app/services/email_verification_service.py:150-211 | for each of the checks the outcome and what becomes of the newest unconsumed row: nothing, one attempt more, or one more and consumed; all other rows stay |
| EmailCodes.SlidingLimit | backend/app/services/email_verification_service.py:84-117 | in every run of requests one after the other each closed interval of an hour, less the lag of the stamps, holds at most the configured number of codes for the address |
| EmailCodes.LongerIntervalsExceedLimit | backend/app/services/email_verification_service.py:85-89 | for every configured number and every lag an interval one microsecond longer can hold one code more, with a rising clock |
| EmailCodes.LimitIsExact | backend/app/services/email_verification_service.py:84-117 | for requests one after the other the limit holds for intervals of a given length if and only if that is at most an hour less the lag |
| EmailLimits.SerialLimit | backend/app/services/email_verification_service.py:108-129 | the limit holds in runs where requests overlap, as long as those for one address do not |
| EmailLimits.UnlimitedOverlappingIssues | backend/app/services/email_verification_service.py:108-129 | overlapping requests for one address: for every number there is a run that issues so many codes in one instant |
| EmailLimits.LimitIsExact | backend/app/services/email_verification_service.py:84-129 | over all runs, overlapping or not: the limit holds for intervals of a given length if and only if requests for one address do not overlap and the length is at most an hour less the lag |
| EmailGuesses.AttemptsCountGuesses | backend/app/services/email_verification_service.py:181-201 | in every run of requests one after the other the comparisons made with a row are its attempts and those whose changes were rolled back; the cap bounds the attempts |
| EmailGuesses.CapHoldsIfRefusalsAreKept | backend/app/services/email_verification_service.py:195-201 | for requests one after the other the cap bounds the wrong codes compared with a row if and only if the caller keeps the changes of refused verifications |
| EmailOverlap.SequentialRunsOverlapNowhere | backend/app/services/email_verification_service.py:150-211 | requests one after the other are a case of requests whose reads and writes interleave |
| EmailOverlap.SerialGuessesAreCapped | backend/app/services/email_verification_service.py:181-204 | the cap holds in runs where requests overlap, as long as refusals are kept and verifications of one row do not overlap |
| EmailOverlap.UnlimitedOverlappingGuesses | backend/app/services/email_verification_service.py:181-204 | overlapping verifications with every refusal kept: for every number there is a run with so many wrong codes compared with one row, which ends with one attempt |
| EmailOverlap.CapIsExact | backend/app/services/email_verification_service.py:181-204 | over all runs, overlapping or not: the cap holds if and only if refusals are kept and verifications of one row do not overlap |
| EmailOverlap.BothAccepted | backend/app/services/email_verification_service.py:195-204 | two overlapping verifications with the right code are both accepted |
| EmailOverlap.NoGuessAfterAcceptance | backend/app/services/email_verification_service.py:139-147 | once an acceptance is committed no later request compares the code, however requests overlap |
| EmailGuesses.UnlimitedGuesses | backend/app/api/v1/onboarding.py:433-438 | for a caller that rolls them back: for every number there is a run with so many wrong codes compared with one row, which is then as it was issued |
| EmailGuesses.RolledBackRefusalsCostNothing | backend/app/db.py:91-92 | in every run of such a caller a row that is not consumed has no attempts |
| EmailGuesses.ConsumedAtMostOnce | backend/app/services/email_verification_service.py:139-204 | for requests one after the other a code is accepted at most once, unless the acceptance is rolled back, which leaves the table as it was |
| EmailGuesses.AcceptedCodeWasIssued | backend/app/services/email_verification_service.py:150-211 | an accepted code was issued to that address and tenant, has not expired, and is the code that was sent, or two codes collide |
| Ulid.EncodeInto | backend/app/models/audit_log.py:63-68 | filling the buffer from the right gives the base-32 digits |
| Ulid.DecodeUndoesEncode | backend/app/models/audit_log.py:63-68 | decoding gives the value back, reduced to what the length can hold |
| Ulid.EncodingKeepsOrder | backend/app/models/audit_log.py:60-68 | for values that fit, the texts compare as the numbers do, and are equal only for equal numbers |
| Ulid.UlidsSortByTime | backend/app/models/audit_log.py:71-76 | ULIDs compare as their pairs of 48-bit time and 80-bit random part |
| Ulid.LaterIsLarger | backend/app/models/audit_log.py:71-76 | until the clock needs more than 48 bits, a later millisecond gives a larger text |
| Ulid.UlidDecodes | backend/app/models/audit_log.py:71-76 | both parts can be read back |
| Ulid.UlidIsCrockford | backend/app/models/audit_log.py:54-76 | a ULID holds digits and capital letters other than I, L, O and U |
| KeyCache.PublicKeys.CacheGet | verifier/app/main.py:150-157 | the PEM before its expiry; an expired entry is dropped |
| KeyCache.PublicKeys.CachePut | verifier/app/main.py:160-169 | stores the PEM for the lifetime; a full cache first loses an entry with the earliest expiry |
| KeyCache.PublicKeys.BeginResolve | verifier/app/main.py:178-185 | the pinned PEM for exactly the identifiers it serves, else an unexpired cached one, else the registry has to be asked |
| KeyCache.PublicKeys.FinishResolve | verifier/app/main.py:187-230 | a PEM exactly for a reply below 400 with a PEM that is not blank, loads, and is not of another algorithm; which status each other reply gives; only an accepted PEM is stored, for the lifetime |
| KeyCache.CacheStaysSmall | verifier/app/main.py:160-169 | in every interleaving the cache holds at most 64 keys |
| KeyCache.AnswersComeFromRegistry | verifier/app/main.py:178-230 | every answer is the pinned PEM, or one the registry sent for that identifier in this request or less than the lifetime before |
| KeyCache.CacheIsTransparent | verifier/app/main.py:178-230 | if the registry never changes a key, the answers are those without a cache |
| KeyCache.FreshEntriesStay | verifier/app/main.py:160-169 | an unexpired entry is lost only when replaced or as the earliest to expire of a full cache |

## Left out

- Floating-point numbers in `_legacy_format_number`: their text rests on Python's `repr`. Numbers are integers, strings are sequences of Unicode scalar values, and keys are strings; values of other types, which raise, are not represented.
- The source of the `rfc8785` library: it is modelled as printing what RFC 8785 prescribes for the values modelled, which is what the hand-written encoder prints, and as refusing the integers its caller documents (`backend/app/utils/canonical_json.py:37-42`).
- SHA-256, Ed25519, JWT and PEM internals: SHA-256 is any function into 32 bytes; a token that decodes is one the service signed; loading a PEM is a yes-or-no parameter.
- AuditEvidence.TamperEvidence: a chain replaced as a whole, truncated, or altered and hashed again at its head is not detected without the head hash from elsewhere, as its hypothesis says.
- AuditSession.Session.RecordAuditEvent: one session alone; races are the subject of AuditAppend. The identifier and the time of an event are parameters.
- AuditAppend.EveryStateVerifies: a read sees a prefix of the commit order and the transaction's own inserts; the database's handling of time zones is not modelled, instants are in UTC.
- AuditChain.VerifyChain: `from_position < 1` behaves in the model as in the code, but only windows from 1 on are used in the theorems about tampering.
- AuditExport.IterAuditRows: a generator in the source; here the rows it yields are collected. The CSV and JSON Lines writers are left out, as they add no property.
- AuditDigest.DigestService.EnsureDailyDigest: the rival's row is a parameter; that it is gone again when it is read back, which raises, is not modelled. The first and the last representable day, where the date arithmetic overflows, are excluded.
- Redaction.WalkNode: tuples, sets and keys that are not strings; `str.lower`, the regular-expression sweep and the e-mail mask are parameters, so what the sweep removes is not stated.
- RefreshTokens.RevokedIsNeverExchanged: a new token counts as delivered when its transaction commits; the order of commit and response is the framework's. Clean-up of expired denylist rows is left out.
- Logging in is one step for any user and tenant, which allows more runs than the service does; password checks and registration are left out, and so are the role and e-mail claims of the tokens.
- Idempotency.HandlerRunsOnce: for requests handled one after the other; what holds when they overlap is ReachesHandlerUnlessKept and OverlappingAnswer. The Redis store and clearing the store are left out.
- Idempotency.ReplayRepeatsAnswer: the response class's own treatment of content type and content length is not modelled, and a header with several values counts once.
- Foreign keys are enforced, as PostgreSQL does; SQLite does not by default.
- Billing periods, the price and the latest invoice of a subscription, and invoice rows; they are copied and influence no status. Unknown statuses, which raise, and the event ledger are left out.
- EmailCodes.SlidingLimit: for requests one after the other; EmailLimits covers those that overlap. Stripping and lower-casing of addresses are parameters. Under a stricter isolation level than PostgreSQL's default, where an overlapping update fails, fewer runs are possible than modelled.
- KeyCache.CacheIsTransparent: HTTP and the shape of the registry's address; a reply is a parameter.
- Routing, schemas, migrations, rendering, storage, e-mail delivery, metrics, and the services that only list, read and write single records: they hold no state machine and make no promise that spans operations.
