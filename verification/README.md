# Verified model of the secrets service

This project models the parts of the service whose correctness is an argument
rather than a glance: Shamir sharing of the root key, the seal and the rotation
of key versions, the secret and parameter stores and the walks that rewrap them,
the hash-chained audit log, the deciders (policies, the rate limiter, reference
substitution), and the lease and credential tables. Each is a Dafny model that
takes the branches, constants and error cases of the Go source, with the
properties the source is for proved about it.

## How the system is modelled

* **Objects and tables.** A Go type whose methods change its fields is a class;
  a database table is a `map` field of it. Every such method says outright what it answers and
  what it does to the fields, and is proved equal to a function on plain values
  (`AfterPut`, `AfterUnseal`, `Exchanged`, ...); invariants, runs and interleavings
  are proved about those functions.
* **Interleaving.** The database has a single connection
  (`internal/platform/sqlite/sqlite.go:50`), so a transaction is one atomic step
  and so is each statement outside one. `Rotation` and `ParamRotation` break the
  operations into those steps, with the connection and the manager's mutex as
  state, and let them interleave with a rewrap walk that holds a stale batch;
  `PolicyRuns`, `Auth` and `LeaseHistory` interleave statements likewise.
  Claims over runs quantify over every sequence of steps; a step that cannot
  happen in a state leaves it unchanged.
* **Strings** are sequences of bytes, ordered bytewise as the database orders
  text. UTF-8 is as section 3 of RFC 3629 has it; valid texts are exactly the
  characters, surrogates apart, written one after another (`Utf8.SpelledIsValid`,
  `Utf8.ValidIsSpelled`).
* **Inputs.** Random bytes, token values, lease ids and clock readings are
  parameters. Times are integers in nanoseconds.
* **Cryptography is ideal.** A sealed blob records its key, nonce, additional data
  and payload and opens only under that key and data. Derived keys are named by
  root and label, so that derivation is injective; the key check value is
  injective in the root. SHA-256 is any function to 64 hex characters, with
  collisions excluded only among the inputs a claim is about. Field arithmetic,
  labels, additional data and the chained encoding are modelled byte for byte.

## Where the code does not keep a promise

For each of these the code is modelled as it stands, the failure is a lemma with
a concrete instance, and another lemma says exactly when the promise is kept.

* `RevokePrefix` is documented to revoke every holding under a prefix. The scan
  stops at U+FFFF: a holding is missed if and only if what follows the prefix in its
  path does not sort, byte by byte, below EF BF BF (`RevokePrefixMissesExactly`). For
  paths that are valid UTF-8 that is: it begins with a character beyond U+FFFF
  (`RevokePrefixMissesWide`). `EscapedLease` has two instances, one of them not UTF-8,
  which nothing on the way to a lease asks for.
* Spent assertions are purged at their expiry, but the verifier accepts an assertion
  for its clock skew longer, and a login is verified some delay before the transaction
  that spends it. In the runs with at most that delay every assertion buys at most one
  session if and only if there is neither skew nor delay; if purges were late by a
  grace, if and only if the grace covers both together (`AssertionsOnceExactly`, with
  the replay in `ReplaySucceeds`).
* Parameter writes seal before their statement, and the rewrap guard compares
  key versions only. In the runs whose seals draw distinct data keys, every row opens
  to the last value put at every step if and only if no update of a walk lands on a
  ciphertext other than the one it was computed from (`ValuesKeptExactly`);
  `StraddlingWriteLosesValue` is a run that loses a value for good. After a completed
  walk a row is not at the current version if and only if its last write was sealed
  below it and came after the walk had passed (`OutdatedExactly`);
  `LateWriteStaysOutdated` is a run that leaves one. Neither happens where no write's
  sealing and statement straddle a rotation (`RotationKeepsEveryValue`). Secret writes
  seal inside their transaction and have neither problem
  (`RotationMovesEveryLiveRow`, `GetReturnsWhatWasPut`).
* Binding a policy looks it up, counts the bindings and inserts in three statements. The
  limit on bindings holds in all runs if and only if no two calls for one identity
  overlap between their counts and their insertions (`LimitHoldsExactly`, with the run
  that exceeds it in `OverlappingBindsExceed`); while n overlap it is exceeded by n - 1
  at most (`BoundWithin`).
* An audit append keeps the file verifiable, and in step with the log's own sequence
  and hash, exactly when nothing was written, or the whole record was, on a line of
  its own below 2^20 bytes, every field of it valid UTF-8 (`AppendAgreesExactly`). The JSON
  encoder repairs invalid UTF-8 after the hash is taken; a failed sync leaves its
  record in the file (`UnsyncedAppendBreaksLog`); and a log that once fails to
  verify never verifies again (`BrokenStaysBroken`).
* Substituting references one after another is substituting them at once, whatever they
  reveal, exactly for values with at most one reference
  (`OrderNeverMattersExactly`); with more it is when neither stray dollar signs in
  the value nor dollar signs in what is revealed interfere
  (`SequentialIsSimultaneous`).
* The limiter's idle time is truncated to whole seconds, so an idle bucket is
  full exactly when the time to fill is whole seconds, and otherwise lacks
  less than a second's refill (`IdleFullExactly`, `IdleNearlyFull`).

## Model

| member | source | states |
|---|---|---|
| Field.MulComm | internal/platform/crypto/shamir.go:118-128 | Field multiplication is commutative, for all bytes |
| Field.MulAssoc | internal/platform/crypto/shamir.go:118-128 | It is associative |
| Field.MulDistributes | internal/platform/crypto/shamir.go:118-128 | It distributes over xor on both sides |
| Field.MulOne | internal/platform/crypto/shamir.go:118-128 | One is its unit |
| Field.MulIsProductModulo | internal/platform/crypto/shamir.go:118-128 | A byte is the product exactly when it is congruent to the polynomial product modulo x^8+x^4+x^3+x+1, the definition of section 4.2 of FIPS 197 |
| Field.RemainderUnique | internal/platform/crypto/shamir.go:118-128 | Division by the modulus has one quotient and one remainder of degree below 8 |
| Field.Frobenius | internal/platform/crypto/shamir.go:134-144 | Every byte is its own 256th power |
| Field.Fermat | internal/platform/crypto/shamir.go:134-144 | The 255th power of a nonzero byte is one |
| Field.InverseLaw | internal/platform/crypto/shamir.go:134-144 | The 254th power of a nonzero byte is its multiplicative inverse |
| Field.MulCancel | internal/platform/crypto/shamir.go:130-132 | A nonzero factor can be cancelled, so division is determined |
| Field.FieldMul | internal/platform/crypto/shamir.go:118-128 | The shift-and-add loop computes that multiplication |
| Field.FieldInverse | internal/platform/crypto/shamir.go:134-144 | The square-and-multiply loop computes the 254th power |
| Field.DivMeaning | internal/platform/crypto/shamir.go:130-132 | Division undoes multiplication by a nonzero byte, and by zero gives zero |
| Field.FieldDiv | internal/platform/crypto/shamir.go:130-132 | The quotient times a nonzero divisor is the dividend; dividing by zero gives zero |
| Shamir.SyntheticDivision | internal/platform/crypto/shamir.go:95-101 | A polynomial is its quotient by (x - r) times (x - r), plus its value at r |
| Shamir.TooManyRoots | internal/platform/crypto/shamir.go:39-51 | Only the zero polynomial has as many distinct roots as coefficients |
| Shamir.InterpolationUnique | internal/platform/crypto/shamir.go:103-116 | Polynomials of one length that agree at that many points are equal |
| Shamir.ThroughPoints | internal/platform/crypto/shamir.go:103-116 | A polynomial through any given points with distinct abscissas exists |
| Shamir.PartitionOfUnity | internal/platform/crypto/shamir.go:103-116 | The Lagrange basis values at zero sum to one |
| Shamir.InterpolateValues | internal/platform/crypto/shamir.go:103-116 | Interpolating the values of a polynomial at enough distinct points gives its value at zero |
| Shamir.Evaluate | internal/platform/crypto/shamir.go:95-101 | Horner's loop gives the polynomial's value |
| Shamir.InterpolateAtZero | internal/platform/crypto/shamir.go:103-116 | The double loop gives the Lagrange sum at zero |
| Shamir.Split | internal/platform/crypto/shamir.go:23-53 | Its three errors in order; otherwise each share carries, for every position, the value at its own nonzero point of a polynomial below the threshold whose constant term is the secret byte |
| Shamir.Points | internal/platform/crypto/shamir.go:55-80 | Accepts exactly shares of one width with distinct nonzero points, and otherwise names the fault of the first share that is wrong |
| Shamir.Combine | internal/platform/crypto/shamir.go:55-93 | Recovers, position by position, the interpolated value at zero, or the error of the first faulty share |
| Shamir.CombineInvertsSplit | internal/platform/crypto/shamir.go:23-93 | Any threshold or more distinct shares, in any order, for every secret length, share count and choice of coefficients, combine to exactly the secret |
| Shamir.OneCompletion | internal/platform/crypto/shamir.go:39-51 | For threshold - 1 values and any candidate byte there is exactly one coefficient vector |
| Shamir.TooFewSharesHideSecret | internal/platform/crypto/shamir.go:23-53 | Any threshold - 1 shares are also the shares of every other secret of that length, under exactly one choice of coefficients |
| Encoding.Label | internal/platform/crypto/derive.go:34-44 | The loop writes the parts, each with a four-byte length, or refuses an overlong one |
| Encoding.LabelInjective | internal/platform/crypto/derive.go:34-44 | Lists of parts of any lengths with the same label are the same list |
| Encoding.LabelLayout | internal/platform/crypto/derive.go:34-44 | Each part comes after its length in four bytes, the highest first |
| Encoding.LabelIntRoundTrip | internal/platform/crypto/derive.go:46-48 | The decimal form of an integer determines it |
| Encoding.KekLabelInjective | internal/modules/seal/manager.go:284-296 | Different pairs of tenant and version never get one derivation label |
| Encoding.EncodeInjective | internal/platform/crypto/aad.go:24-49 | Valid additional data with one encoding are one tenant, path and version |
| Encoding.EncodeLayout | internal/platform/crypto/aad.go:24-49 | Exactly a nonempty tenant and path up to 2^20 bytes and a positive version encode, in that order, the texts with their lengths |
| Envelopes.OpensOnlyWhereSealed | internal/platform/crypto/envelope.go:18-68 | A sealed envelope opens to its plaintext under its own key and location, and under no other key or location |
| Envelopes.RewrapKeepsMeaning | internal/platform/crypto/envelope.go:70-101 | A rewrapped envelope opens under the new key to what it opened to under the old one, and under no other key or location |
| Cipher.OpensOnlyForItsTenant | internal/modules/seal/cipher.go:13-39 | What the cipher sealed opens only for the same root, tenant and location |
| Cipher.OpensOnlyAtItsVersion | internal/modules/seal/cipher.go:23-39 | With another key version written on it, an envelope does not open |
| Cipher.RewrapForKeepsMeaning | internal/modules/seal/manager.go:251-282 | A rewrap ends at the current version, opens to the same plaintext and reports whether anything changed |
| Cipher.RewrapForSucceeds | internal/modules/seal/manager.go:251-282 | What the store can open it can rewrap, unless it is too new |
| Cipher.RewrapForRefusals | internal/modules/seal/manager.go:251-282 | A version below one is refused first, then a sealed store, then exactly the versions beyond the current one |
| SealManager.Manager.constructor | internal/modules/seal/manager.go:60-69 | A new process knows the stored row and nothing else |
| SealManager.Manager.Initialize | internal/modules/seal/manager.go:75-115 | Works once; the shares it returns are those of the new root, and the store is left open with it at the first key version |
| SealManager.Manager.AlreadyCollected | internal/modules/seal/manager.go:317-325 | Whether a share with that index is among those collected |
| SealManager.ProgressCountsShares | internal/modules/seal/manager.go:298-315 | The status reports how many different genuine shares have come in, until the threshold-th opens the store and the count is gone |
| SealManager.StatusInEveryRun | internal/modules/seal/manager.go:298-315 | In every run progress is reported only while sealed and below the threshold, unsealed exactly while the root is in memory, and a key version that never falls |
| SealManager.Manager.Unseal | internal/modules/seal/manager.go:117-163 | A repeated share changes nothing, one more is kept, and the last of a quorum either opens the store or empties the collection; whatever succeeds answers with the status as it then is |
| SealManager.Manager.Seal | internal/modules/seal/manager.go:165-175 | Forgets the root, the key version and the collected shares |
| SealManager.Manager.Rotate | internal/modules/seal/manager.go:177-209 | On success the stored key version is one more than before and the one in memory the same, and it answers with both; only while open, and a refused rotation changes nothing |
| SealManager.RotationsCounted | internal/modules/seal/manager.go:177-209 | Over every run the stored key version is the one at the start plus the number of successful rotations, and while the store is open so is the one in memory |
| SealManager.ApplyKeepsInv | internal/modules/seal/manager.go:75-209 | Between calls the collected shares are fewer than the threshold, have distinct indices, and exist only while initialized and sealed; an open root matches the stored check and its key version the stored one |
| SealManager.RunKeepsInv | internal/modules/seal/manager.go:75-209 | The same over every run, restarts included, and the stored check, share count and threshold never change once written, nor does the version fall |
| SealManager.CompleteQuorum | internal/modules/seal/manager.go:117-163 | A complete quorum always empties the collection, and opens the store exactly when it recovers the original root |
| SealManager.GenuineQuorumUnseals | internal/modules/seal/manager.go:117-163 | Genuine shares in any order and with repeats open the store to the original root exactly when as many different ones as the threshold have been given |
| SecretStore.Store.Put | internal/modules/secret/store.go:74-134 | One transaction: a write goes ahead without an expectation or on exactly the version it expects, becomes the next version and prunes what falls out; a refused one changes nothing |
| SecretStore.Store.PruneOldVersions | internal/modules/secret/queries.go:62-72 | Every version of the path that falls out of the newest to be kept ends destroyed with both blobs empty; newer versions, other paths and rows already destroyed are untouched |
| SecretStore.Store.Get | internal/modules/secret/store.go:136-195 | Answers the named version, or for zero the one the metadata has as current, with its row, exactly if that row is neither deleted nor destroyed; otherwise tells missing, deleted and destroyed apart; when nothing comes between its statements |
| SecretStore.Store.Mark | internal/modules/secret/store.go:287-321 | Marks every named version, or the current one where none is named, or on the first refusal none; the first time of a deletion and a destruction stays, and a destroyed row is empty |
| SecretStore.Store.ReplaceWrapping | internal/modules/secret/rewrap.go:98-113 | Replaces the wrapping only of an undestroyed row still at the key version that was seen |
| SecretStore.OpensOnlyThere | internal/modules/secret/service.go:52-99 | What is sealed for one tenant, path and version opens there and at no other |
| SecretStore.MarkEach | internal/modules/secret/store.go:287-321 | The loop over the versions is one simultaneous marking, whatever repeats the list holds, and its error is that of the first version refused |
| SecretStore.MarkOneMore | internal/modules/secret/store.go:287-321 | A version already marked in the same call is marked again without effect and without a new refusal |
| SecretStore.MarksSeen | internal/modules/secret/store.go:226-321 | A deleted version reads as deleted until it is undeleted and is then what it was; a destroyed one reads as destroyed for good |
| SecretStore.FirstRefusalAt | internal/modules/secret/store.go:287-321 | The refusal a call reports is that of the first version that cannot be marked |
| SecretHistory.PutKeepsInv | internal/modules/secret/store.go:74-134 | A successful write appends exactly the next version, a refused one nothing, and the primary key is never violated |
| SecretHistory.MarkKeepsInv | internal/modules/secret/store.go:226-321 | Marking keeps the history and never revives a destroyed version |
| SecretHistory.ReplaceKeepsInv | internal/modules/secret/rewrap.go:98-113 | Rewrapping keeps the history and leaves every ciphertext alone |
| SecretHistory.ApplyKeepsInv | internal/modules/secret/store.go:74-321 | After any operation the versions of a path are one to current, and destroyed rows are empty |
| SecretHistory.RunExtends | internal/modules/secret/store.go:74-321 | Over every run a version once written stays, a destroyed one stays destroyed, and a live one keeps its ciphertext |
| SecretHistory.ExpectationMetOnce | internal/modules/secret/expectation.go:12-22 | In any run at most one write succeeds with a given expected version of a path |
| SecretHistory.AtMostKeepLive | internal/modules/secret/queries.go:62-72 | No path ever has more undestroyed versions than are kept |
| Rotation.NextKeepsInv | internal/modules/secret/rewrap.go:24-113 | Every interleaved step of writers, seal, rotation and walk keeps rows openable to what was put, the connection's sealed write current, and the walk's unfinished rows ahead of its cursor |
| Rotation.RotationMovesEveryLiveRow | internal/modules/rotate/rotate.go:100-137 | Once a rotation has succeeded every undestroyed row is at its version or later, in every interleaving with Put, Delete, Undelete and Destroy |
| Rotation.PutOnce | internal/modules/secret/store.go:74-134 | Nothing is ever put twice at one tenant, path and version |
| Rotation.GetReturnsWhatWasPut | internal/modules/secret/service.go:52-79 | In every run, whatever comes between resolving the version, reading its row and opening it, no row read fails to open while the store is open, and a current version once resolved is still stored |
| Rotation.GetAnswersVersion | internal/modules/secret/service.go:52-79 | In every run a read of version zero is of the last version that had been put when it was resolved, and of any other of that version; it answers exactly what was put there, if and only if the row was neither deleted nor destroyed when it was read and the store open when it was opened |
| Rotation.GetAnswersNothing | internal/modules/secret/store.go:136-195 | A negative version, and the current one of a path nothing was put at, have no answer |
| Rotation.EachRotationRaises | internal/modules/seal/manager.go:177-209 | In every interleaving the stored version goes up by one for each rotation that gets as far as writing it, and by nothing else |
| Rotation.StepsAreManagers | internal/modules/seal/manager.go:165-209 | Undisturbed, the steps of a rotation before its walk are one call to the manager, and sealing and unsealing undo each other |
| Rotation.StepsAreStores | internal/modules/secret/store.go:74-134 | Undisturbed, the steps of a write are one transaction of the store, and what it puts is recorded |
| RotationProgress.RotationCompletes | internal/modules/rotate/rotate.go:100-137 | From every reachable world with the store open and nothing under way, a rotation left alone succeeds: the version is one more, every undestroyed row is at it and opens to what was put |
| RotationProgress.WalkCompletes | internal/modules/secret/rewrap.go:24-113 | And so does a walk, from wherever it is, whatever its batch holds |
| RotationProgress.SealedWalkStops | internal/modules/secret/rewrap.go:24-65 | A walk that finds the store sealed gives up and leaves every row as it is |
| Rotation.WalkNeverFails | internal/modules/secret/rewrap.go:24-65 | While the store is open and key versions fit 64 bits, rewrapping a record the walk holds never fails |
| Rotation.NoRowIsTooNew | internal/modules/seal/manager.go:251-282 | While the store is open every live row's key version is between one and the current one, so the too-new branch is never taken |
| Ordering.LessTotal | internal/modules/param/rewrap.go:67-95 | The bytewise order the queries sort by is total and irreflexive |
| Ordering.LessTransitive | internal/modules/param/rewrap.go:67-95 | And transitive |
| Ordering.SortedNames | internal/modules/lease/manager.go:326-349 | A set of names in strictly ascending order, each once |
| Paths.TrimSpaceTakes | internal/modules/param/service.go:85-89 | What trimming takes from either end is white space characters, and it leaves none there |
| Paths.TrimSpaceMeaning | internal/modules/param/param.go:95-103 | Nothing is trimmed exactly if there is no white space character at either end |
| Paths.SafePathMeaning | internal/modules/param/param.go:87-103 | A path is safe exactly if it is within its length and every stretch between slashes is nonempty, neither dot nor dot-dot, and without white space at its ends |
| Paths.SafeSegmentsMeaning | internal/modules/policy/policy.go:205-220 | The same for the paths of rules, which may be empty or end in a slash |
| Inherit.InheritanceChain | internal/modules/param/param.go:105-117 | The candidates are the leaf under every number of leading directories, deepest first, each once; the repeat check never fires |
| Inherit.ScopeOfJoin | internal/modules/param/param.go:105-117 | A candidate of directories and a leaf is the leading directories with that leaf |
| Inherit.SegmentsOfJoin | internal/modules/param/param.go:105-117 | Splitting what was joined gives the segments back |
| Inherit.JoinOfSegments | internal/modules/param/param.go:105-117 | Joining what was split gives the path back |
| Inherit.Resolve | internal/modules/param/store.go:95-111 | Answers from the deepest scope that holds anything, even if that cannot be read; not found only when no scope holds anything |
| ParamStore.Store.Put | internal/modules/param/store.go:63-86 | Refuses exactly what does not validate or seal and then changes nothing; otherwise what was put opens to the value put, at the current key version, and no other parameter is touched |
| ParamStore.OpensOnlyThere | internal/modules/param/store.go:199-201 | What is sealed for one parameter opens for that tenant and path and no other |
| ParamStore.Store.Delete | internal/modules/param/store.go:145-163 | Removes the row and says whether there was one |
| ParamStore.Store.RewrapBatch | internal/modules/param/rewrap.go:67-95 | The first rows beyond the cursor in key order; a short batch means none is left |
| ParamStore.Store.ReplaceWrapping | internal/modules/param/rewrap.go:97-111 | Takes the new wrapping only where the key version is still the one seen |
| ParamStore.Store.Rewrap | internal/modules/param/rewrap.go:27-65 | With no other writer the walk examines each row once, ends, counts what it moved, and on a failure leaves that row and all later ones untouched |
| ParamStore.WalkOneMore | internal/modules/param/rewrap.go:27-65 | Moving the cursor to the next key adds exactly that row to what has been walked |
| ParamStore.WalkedMeaning | internal/modules/param/rewrap.go:27-65 | After a finished walk every row is at the current version and opens to what it opened to before |
| ParamRotation.AccountedStep | internal/modules/param/rewrap.go:27-111 | After every interleaved step the rows below the current version are those whose last write escaped the walk and those the walk still has to come to |
| ParamRotation.OutdatedExactly | internal/modules/param/rewrap.go:27-111 | In every run, once a walk has completed, a row is not at the current version if and only if its last write was sealed below it and came after the walk had passed |
| ParamValues.LateWriteStaysOutdated | internal/modules/param/store.go:63-86 | For every key and value there is a run that completes a walk and leaves the row at an older version |
| ParamValues.OpeningStep | internal/modules/param/rewrap.go:27-111 | Every interleaved step but a landing on another ciphertext keeps each row opening to the last value put |
| ParamValues.ValuesKeptExactly | internal/modules/param/rewrap.go:27-111 | In every run whose seals draw distinct data keys, every row opens to the last value put at every step if and only if no guarded update lands on a ciphertext other than the one it was computed from |
| ParamValues.RotationKeepsEveryValue | internal/modules/param/rewrap.go:27-111 | In every run in which no write straddles a rotation each row opens to the last value put, and after a completed walk is at the current version |
| ParamValues.ReplaceKeepsValueExactly | internal/modules/param/rewrap.go:97-111 | In every state reached so far without a loss, an update that its guard lets through keeps the value if the row still has the ciphertext that was read, and with distinct data keys loses it for good if not |
| ParamValues.StraddlingWriteLosesValue | internal/modules/param/store.go:63-86 | For every key and pair of values there is a run after which the stored value opens no more |
| Substitution.ReplaceIsSub | internal/modules/param/service.go:30-110 | Replacing the text of a reference everywhere replaces exactly the matches with that text |
| Substitution.SequentialIsSimultaneous | internal/modules/param/service.go:74-110 | One replacement after another equals one substitution of all matches, when every dollar sign of the value starts a match and none is revealed |
| Substitution.SingleMatchIsSimultaneous | internal/modules/param/service.go:74-110 | With one match it does without either hypothesis |
| Substitution.RevealedReferenceIsReplacedAgain | internal/modules/param/service.go:74-110 | A revealed text that is itself a later reference is replaced in its turn |
| Substitution.Resolve | internal/modules/param/service.go:68-118 | Succeeds exactly when every reference is acceptable, authorized and readable, lists their targets in order, and otherwise reports the first that is not |
| Substitution.RevealMeaning | internal/modules/param/service.go:85-121 | A reference is revealed exactly if, without the white space around it, it is secret/, the caller's tenant, a slash and a safe path, the caller may read it, and it is there |
| Substitution.ResolvedIsAuthorized | internal/modules/param/service.go:74-118 | Every substituted plaintext is that of a safe path under the caller's own tenant, and was authorized, whatever the value and the plaintexts hold |
| Substitution.ResolvedIsSimultaneous | internal/modules/param/service.go:74-118 | For clean values the resolved value is the simultaneous substitution |
| SubstitutionOrder.ReplaceAllLength | internal/modules/param/service.go:74-110 | Occurrences of a reference do not overlap: each adds the same difference to the length |
| SubstitutionOrder.OrderNeverMattersExactly | internal/modules/param/service.go:74-110 | The two agree for all plaintexts if and only if the value has at most one match |
| Audit.Chain | internal/platform/audit/audit.go:95-120 | The digest loop hashes the previous hash followed by the twelve length-prefixed fields |
| Audit.ChainInputInjective | internal/platform/audit/audit.go:95-120 | Two records hashed from the same bytes agree in every field and in the previous hash, although that has no length of its own |
| Audit.Verify | internal/platform/audit/log.go:146-201 | Accepts a file exactly when its lines are readable and short, its records number from one, and each carries the hash before it and its own; otherwise it reports the first fault |
| Audit.FaultMeaning | internal/platform/audit/log.go:146-201 | Each report says what is wrong with the line it is about, and numbers the record expected there |
| Audit.TipDeterminesLog | internal/platform/audit/log.go:146-201 | Two files that verify with the same last hash hold the same records |
| Utf8.RepairsOnlyInvalid | internal/platform/audit/audit.go:122-128 | The encoder's repair leaves a field alone exactly when it is valid UTF-8 |
| Utf8.RepairedIsValid | internal/platform/audit/audit.go:122-128 | What the encoder writes is valid UTF-8, whatever the field held |
| AuditLog.Log.constructor | internal/platform/audit/log.go:61-71 | An open log starts from the tip that was read |
| AuditLog.Log.Open | internal/platform/audit/log.go:40-72 | Opens exactly a missing or verifying file, at the number and hash that Verify answers |
| AuditLog.Log.Append | internal/platform/audit/log.go:74-105 | Refuses an event without an operation or with a result other than allow, deny and error, and nothing else about it; writes and advances only when write and sync succeed; after a failed write nothing more is written |
| AuditLog.StoredExactly | internal/platform/audit/log.go:74-105 | On an open log, an event with an operation and one of the three results is acknowledged, and the last line holds exactly it, its time, number and hash; any other leaves file and log alone |
| AuditLog.EveryEventRecorded | internal/platform/audit/log.go:74-105 | Over every run of stored appends the file comes to hold exactly the events with an operation and one of the three results, in order |
| AuditLog.Log.Close | internal/platform/audit/log.go:113-123 | Leaves the file as it is and refuses later appends |
| AuditLog.ClosedWritesNothing | internal/platform/audit/log.go:74-123 | A closed log leaves the file alone over every run without another opening, and answers every event that it has been closed |
| AuditLog.ReadBackExactly | internal/platform/audit/log.go:164-187 | The scan takes an appended record back exactly when its line is below 2^20 bytes and no field had to be repaired |
| AuditLog.AppendAgreesExactly | internal/platform/audit/log.go:74-105 | After an append Verify still answers with the log's sequence and hash if and only if nothing was written, or all of it was, faithfully and on a line of its own |
| AuditLog.RunKeepsAcknowledged | internal/platform/audit/log.go:40-139 | Over any run of opening, appending and closing whose failures leave the file unchanged, the file holds exactly the acknowledged events in order and opens again in step |
| AuditLog.BrokenStaysBroken | internal/platform/audit/log.go:74-201 | A file that fails to verify never verifies again, whatever is appended |
| AuditLog.UnsyncedAppendBreaksLog | internal/platform/audit/log.go:98-104 | After an append whose sync failed, the next stored append makes the log unopenable |
| Policies.OnlyTrailingWildcard | internal/modules/policy/policy.go:171-179 | The two wildcard checks leave exactly the patterns with none but a trailing one |
| Policies.ValidateRule | internal/modules/policy/policy.go:168-202 | Accepts rules that deny or grant, not both, by known capabilities, for a safe pattern |
| Policies.New | internal/modules/policy/policy.go:47-71 | Accepts exactly well-formed policies with distinct patterns, and otherwise names the fault of the first rule that is wrong |
| Policies.WellFormedMeaning | internal/modules/policy/policy.go:152-220 | What a well-formed policy is, clause by clause, without the order in which the source looks for faults |
| Policies.NoTies | internal/modules/policy/policy.go:126-150 | Two patterns matching one path, neither more specific, are the same pattern |
| Policies.Evaluate | internal/modules/policy/policy.go:73-119 | Allows exactly when the request is grantable and the path valid, no matching rule denies and the deciding rule grants; names the rule that decided |
| Policies.DecisionMeaning | internal/modules/policy/policy.go:73-150 | Of rules none of which denies, the first that is the path itself decides, and where there is none the first of those with the longest p among the patterns p* for which the path is p and something more; it allows exactly what that rule grants |
| Policies.DeciderIsBest | internal/modules/policy/policy.go:126-150 | The rule so described is the one the comparison of the source picks |
| Policies.BestIsDecider | internal/modules/policy/policy.go:126-150 | And the one it picks is so described |
| Policies.CoversIsMatches | internal/modules/policy/policy.go:126-132 | A pattern matches exactly if it is the path, or p* for a p the path begins with |
| Policies.ExplainedOnce | internal/modules/policy/policy.go:73-119 | The rules, path and request fix the whole decision |
| Policies.OrderIndependent | internal/modules/policy/policy.go:73-150 | Reordering policies or rules changes no answer where rules for one pattern agree on what they grant |
| Policies.DecisionOrderIndependent | internal/modules/policy/policy.go:73-150 | With no pattern in two policies the whole decision is independent of order, but for which denying rule it names |
| Policies.EarlierPolicyDecides | internal/modules/policy/policy.go:96-98 | Of two rules for the same path the earlier decides, in either order |
| Policies.DenialsOnlyRefuse | internal/modules/policy/policy.go:88-94 | Rules that only deny, added anywhere, refuse exactly what they match and leave every other answer alone |
| Policies.FlatHolds | internal/modules/policy/policy.go:81-84 | The rules looked at are exactly the rules of the policies in the set |
| Policies.ReorderingKeepsAnswers | internal/modules/policy/policy.go:73-150 | A set with its policies, or the rules in them, in another order gives the same answers where rules for one pattern agree |
| Policies.ReorderingKeepsDecisions | internal/modules/policy/policy.go:73-150 | And the same decisions where no pattern occurs twice, but for which denying rule is named |
| Policies.DenyingPolicyOnlyRefuses | internal/modules/policy/policy.go:88-94 | A policy that only denies, put anywhere in a set, refuses exactly what it matches, so it never turns a refusal into an allow |
| PolicyManager.Manager.constructor | internal/modules/policy/manager.go:37-46 | Starts with no policy and no binding |
| PolicyManager.Manager.Put | internal/modules/policy/manager.go:52-72 | Stores only well-formed policies, replacing one of the same name |
| PolicyManager.Manager.Remove | internal/modules/policy/manager.go:115-133 | Takes the bindings to the policy with it |
| PolicyManager.Manager.Bind | internal/modules/policy/manager.go:135-160 | Binds exactly a stored well-formed policy, to an identity bound to fewer than 64, when no other call comes between its statements; otherwise the first of its five errors in order |
| PolicyManager.Manager.Unbind | internal/modules/policy/manager.go:162-170 | Removes one binding |
| PolicyManager.Manager.SetFor | internal/modules/policy/manager.go:193-223 | Exactly the rows that are bound and defined, in strictly ascending order of their names |
| PolicyManager.Manager.Authorize | internal/modules/policy/manager.go:225-235 | Refuses every other tenant's path, and otherwise answers as the bound policies do |
| PolicyManager.AuthorizedOnce | internal/modules/policy/manager.go:193-235 | The tables fix the answer |
| PolicyRuns.RunKeepsInv | internal/modules/policy/manager.go:52-223 | Over every run of statements, with calls to bind interleaved, stored policies validate and bindings have their policies, so a lookup never finds one corrupt |
| PolicyRuns.BoundWithin | internal/modules/policy/manager.go:135-160 | While at most n calls for an identity overlap between count and insertion, it is bound to at most n - 1 policies beyond the limit |
| PolicyRuns.OverlappingBindsExceed | internal/modules/policy/manager.go:135-160 | From one below the limit, two overlapping calls end one above it, for all tables and policies |
| PolicyRuns.LimitHoldsExactly | internal/modules/policy/manager.go:135-160 | The limit holds in all runs if and only if no two calls for an identity overlap so |
| PolicyRuns.UninterruptedBind | internal/modules/policy/manager.go:135-160 | The three statements of a call that no other comes between are one call to bind |
| PolicyRuns.TakenBack | internal/modules/policy/manager.go:115-170 | A removed policy is bound to nobody, a binding taken back is gone, and everything else stays |
| PolicyRuns.OtherTenantsUnseen | internal/modules/policy/manager.go:52-223 | A tenant's rows and calls after any run are those of its own statements alone |
| PolicyManager.AuthorizesFromShare | internal/modules/policy/manager.go:193-235 | An answer depends on the tenant's own rows alone |
| RateLimit.Limiter.New | internal/platform/ratelimit/ratelimit.go:40-65 | Its three errors, the default key limit, and idle as whole seconds |
| RateLimit.Limiter.MakeRoom | internal/platform/ratelimit/ratelimit.go:99-116 | A full table loses its idle buckets, and then only as many others as it must |
| RateLimit.Limiter.Allow | internal/platform/ratelimit/ratelimit.go:67-91 | Takes a token if, refilled to now, the bucket holds one; a new bucket is full, and a clock that has not moved on refills nothing |
| RateLimit.LevelLater | internal/platform/ratelimit/ratelimit.go:80-84 | Refilling in two stages is refilling in one, never beyond the burst |
| RateLimit.AskedLevel | internal/platform/ratelimit/ratelimit.go:67-91 | A call is granted exactly at one token or more, and takes one from its own key and none from any other |
| RateLimit.TableBounded | internal/platform/ratelimit/ratelimit.go:99-116 | Over every run the table never exceeds its limit |
| RateLimit.GrantedAtMost | internal/platform/ratelimit/ratelimit.go:67-116 | In any run a key is granted at most burst + rate * T, and one burst more for each time its bucket was dropped |
| RateLimit.IdleNearlyFull | internal/platform/ratelimit/ratelimit.go:63-108 | Dropping an idle bucket gives away less than one second's refill |
| RateLimit.IdleFullExactly | internal/platform/ratelimit/ratelimit.go:63-108 | It gives away nothing if and only if burst / rate is whole seconds |
| RateLimit.ForgettingUnseen | internal/platform/ratelimit/ratelimit.go:67-116 | Then, while only idle buckets are dropped, every answer is that of a limiter that forgets nothing |
| Lease.Manager.Issue | internal/modules/lease/manager.go:93-155 | Extends the active lease of the holding or replaces a lapsed one, in one transaction, and returns the row |
| Lease.Manager.Renew | internal/modules/lease/manager.go:157-183 | Only the holder, only while active; the expiry becomes now + ttl, sooner or later than before |
| Lease.Manager.Revoke | internal/modules/lease/manager.go:185-207 | Revokes once; an unknown id is an error, a revoked one is not |
| Lease.Manager.HoldersUnder | internal/modules/lease/manager.go:326-349 | Each holder once in order, and the counts sum to the rows the scan covers |
| Lease.Manager.RevokeHolders | internal/modules/lease/manager.go:310-324 | Revokes the tokens of all holders and of nobody else, and counts exactly those |
| Lease.Manager.RevokePrefix | internal/modules/lease/manager.go:209-229 | Revokes exactly the tenant's unrevoked rows that the scan covers, with the tokens of their holders, and reports the exact numbers |
| Lease.Manager.RevokeIdentity | internal/modules/lease/manager.go:231-251 | The same for the rows of one identity |
| Lease.Manager.Sweep | internal/modules/lease/manager.go:293-308 | Removes at most a batch of the rows past retention, and all of them if they fit |
| Lease.RevocationLeavesNothing | internal/modules/lease/manager.go:209-229 | After a prefix revocation no covered row of the tenant is unrevoked, every other row and token is as it was, and no earlier token of a holder authenticates at any time with any binding |
| Lease.RevokedForAllMeaning | internal/modules/lease/manager.go:310-324 | Every token of the identities is revoked and no other is touched |
| Lease.ContainsMeaning | internal/modules/lease/manager.go:419-430 | A path is refused exactly if it has U+FFFF anywhere in it |
| LeaseHistory.IssueKeepsTheLater | internal/modules/lease/manager.go:93-155 | The one unrevoked row of the holding runs to the later of its old expiry and now + ttl |
| LeaseHistory.ApplyKeepsOneLive | internal/modules/lease/migrations.go:22-24 | No step leads to two unrevoked rows for one holding, so the unique index is never violated |
| LeaseHistory.RunKeeps | internal/modules/lease/manager.go:93-308 | The same over every run, in which rows keep their holding and a revoked row never changes again |
| LeaseHistory.RevokedNeverActive | internal/modules/lease/manager.go:185-324 | A revoked lease is never active again |
| LeaseHistory.RevocationLasts | internal/modules/lease/manager.go:185-251 | What a revocation by prefix, by identity or by id covers is never active again, in every run |
| LeaseHistory.ExtendedUntil | internal/modules/lease/manager.go:157-183 | A renewed lease is active until exactly its new expiry, a revoked one is not revived, and no other row is touched |
| LeaseHistory.SweepOnce | internal/modules/lease/manager.go:293-308 | A sweep takes no active row and no more than its batch |
| LeaseHistory.SweepsDrain | internal/modules/lease/manager.go:293-308 | After n sweeps exactly max(0, due - n * batch) due rows are left, and every other row is untouched |
| LeaseHistory.SweepsAreSteps | internal/modules/lease/manager.go:293-308 | Those sweeps are a run of the lease table |
| LeaseHistory.ScanExactly | internal/modules/lease/manager.go:415-417 | The scan covers a path exactly when it has the prefix and the rest sorts bytewise below EF BF BF |
| LeaseHistory.BelowCeilingExactly | internal/modules/lease/manager.go:415-430 | For a valid rest without U+FFFF that is: it does not begin with a byte from F0 up |
| LeaseHistory.RevokePrefixMissesExactly | internal/modules/lease/manager.go:209-229 | A lease under the prefix escapes if and only if what follows the prefix in its path does not sort bytewise below EF BF BF, whatever the path |
| LeaseHistory.RevokePrefixMissesWide | internal/modules/lease/manager.go:209-229 | For a leasable path in valid UTF-8: if and only if it goes on with a character beyond U+FFFF |
| LeaseHistory.RevokePrefixTouchesOnlyPrefix | internal/modules/lease/manager.go:209-229 | No row of another tenant or without the prefix is touched |
| LeaseHistory.EscapedLease | internal/modules/lease/manager.go:415-430 | Two leases that issuing makes and a revocation of their prefix leaves alone, one beyond U+FFFF and one not UTF-8 |
| Auth.Manager.constructor | internal/modules/auth/manager.go:23-32 | Starts with no identity, token or spent assertion |
| Auth.Manager.RegisterIdentity | internal/modules/auth/manager.go:38-56 | Registers a valid identity once |
| Auth.Manager.DisableIdentity | internal/modules/auth/manager.go:85-98 | Keeps the first time an identity was disabled |
| Auth.Manager.Issue | internal/modules/auth/manager.go:104-136 | Issues only to a registered identity that is not disabled, for a lifetime within the maximum |
| Auth.Manager.Authenticate | internal/modules/auth/manager.go:138-193 | Accepts exactly a reusable, unrevoked, unexpired token of an identity not disabled, with its own binding, and answers with that identity |
| Auth.IssuedAuthenticates | internal/modules/auth/manager.go:104-193 | After a reusable token has been issued, and any run that neither revokes it or its identity's tokens nor disables the identity nor purges from its expiry on, presenting it answers its identity exactly with its binding and before now + ttl |
| Auth.LooksLikeTokenMeaning | internal/modules/auth/token.go:46-48 | What is looked up at all begins with mss_ and has 43 bytes more |
| Auth.Manager.Revoke | internal/modules/auth/manager.go:195-203 | Marks the token, once |
| Auth.Manager.RevokeIdentity | internal/modules/auth/manager.go:205-214 | Marks every unrevoked token of the identity and counts them |
| Auth.Manager.PurgeExpired | internal/modules/auth/manager.go:216-224 | Drops exactly the expired tokens |
| Auth.Manager.Consume | internal/modules/auth/bootstrap.go:49-97 | Marks a live single-use token consumed, or changes nothing |
| Auth.Manager.Exchange | internal/modules/auth/bootstrap.go:19-47 | Trades a live bootstrap token for a session of its identity; a failed exchange spends nothing |
| Auth.BootstrapExchanges | internal/modules/auth/bootstrap.go:19-97 | A bootstrap token never authenticates, and after any run that spares it, it can be exchanged until its expiry for a session that authenticates as its identity |
| Auth.Manager.LoginInstance | internal/modules/auth/instance.go:20-94 | Spends a verified assertion, enrols its subject and issues a session, or changes nothing |
| Auth.LoginAuthenticates | internal/modules/auth/instance.go:20-94 | A session from a login authenticates its subject for an hour, after any run that spares it |
| Auth.AcceptedWindow | internal/platform/jwt/jwt.go:176-204 | An assertion is accepted exactly for its issuer, audience and required claims, and in the window of its times widened by the skew on both sides |
| Auth.Manager.PurgeSpentAssertions | internal/modules/auth/instance.go:96-104 | Forgets exactly the assertions past their expiry |
| Auth.RunLater | internal/modules/auth/manager.go:38-224 | Over every run an identity keeps its tenant and kind and stays disabled, and a token keeps what it was issued with and stays revoked or consumed |
| Auth.RevokedNeverAuthenticates | internal/modules/auth/manager.go:138-214 | A token authenticates after a run only if it was neither revoked nor single-use nor its identity disabled before, and only as that identity with its binding |
| Auth.DisabledNeverAuthenticates | internal/modules/auth/manager.go:85-193 | No token, issued before or after, authenticates as an identity once disabled |
| Auth.BootstrapBuysOnce | internal/modules/auth/bootstrap.go:19-97 | In every interleaving a bootstrap token buys at most one session |
| Auth.AssertionBuysOnce | internal/modules/auth/instance.go:20-104 | In runs whose purges are late by at least the verifier's skew and the delay of logins together, an assertion buys at most one session |
| Auth.ReplaySucceeds | internal/modules/auth/instance.go:96-104 | Wherever the purges are not late enough for that there is a run in which one assertion buys two sessions |
| Auth.AssertionsOnceExactly | internal/platform/jwt/jwt.go:194-196 | Every assertion buys at most one session, in all runs with at most a given delay between verification and transaction, if and only if skew and delay are both zero; with a grace before purging, if and only if the grace covers both |
| Rotate.Module.Claim | internal/modules/rotate/rotate.go:122-131 | Only one rotation at a time holds the flag |
| Rotate.Module.Release | internal/modules/rotate/rotate.go:133-137 | Gives the flag up |
| Rotate.Module.Rotate | internal/modules/rotate/rotate.go:100-120 | However a rotation ends the flag is as it was; it reports the subjects up to the first failure, and success only if all of them succeeded |

## Left out

- HTTP handlers, the command line, the agent, the client, the browser interface, metrics, configuration, migrations and snapshots: plumbing whose claims would be easy.
- AES-GCM, HKDF (RFC 5869), HMAC, SHA-256 and Ed25519: idealised as said above. Zeroing of key bytes and redaction in logs are not functional properties.
- SQL and SQLite: tables are maps with the guards, orders and uniqueness the statements name; foreign keys are modelled where a deletion cascades or an insertion needs what it refers to.
- Text timestamps: times are integers, so the effect of trimmed fraction digits on comparisons within one second is not modelled.
- Deadlock between the seal mutex and the single connection, and liveness under interference: that a rotation ends is proved of one left alone (RotationProgress.RotationCompletes).
- A second process writing the seal row: the rotation-raced error cannot occur with one writer and has no branch in the model.
- Random values that collide: token values and lease ids are assumed not to come up twice over a run, except that a value already stored is refused as the primary key refuses it.
- Several readings of the clock inside one transaction are one reading.
- Token fingerprints: tokens are kept under their values.
- The kinds of parameter values and what they accept, listing of parameters and secrets, secret metadata and the active-lease queries.
- A secret that changes between two reads of one substitution, or an authorizer that changes its mind: both are functions during one call.
- Overflow of Duration and rounding of floats in the limiter, and a clock that goes back.
- Rule paths and names that are not valid UTF-8: the JSON text that stores them is not modelled.
- Rotation.RotationMovesEveryLiveRow: about the secret rows alone; the parameter walk of the same rotation is in ParamRotation, and the two are not run in one machine.
- ParamValues.RotationKeepsEveryValue: only for runs in which no write's sealing and statement straddle a rotation, because it is false otherwise; the exact conditions are those of ParamValues.ValuesKeptExactly and ParamRotation.OutdatedExactly.
- Lease.Manager.RevokePrefix: its three statements are one step; leases issued between them are not modelled.
- Lease.Manager.RevokeIdentity: its statements are one step as well.
- Lease.Manager.Renew: reading the lease and extending it are one step, so that a renewal whose lease is revoked in between and which reports success without extending anything is not among its results; LeaseHistory runs the two apart.
- Auth.Manager.Issue: looking the identity up and inserting the token are one step; Auth's runs insert without the lookup.
- PolicyManager.Manager.Bind: its three statements are one step; PolicyRuns runs them apart.
- SecretStore.Store.Get: its two statements are one step; Rotation.GetReturnsWhatWasPut runs them, and the opening, apart.
- Auth.AssertionsOnceExactly: quantifies over runs on a clock that does not go back.
- ParamStore.Store.Put: whether the kind is known and accepts the value are inputs.
- AuditLog.AppendAgreesExactly: assumes that the JSON text of a record is no shorter than any of its fields and that repairing a record does not happen upon a second preimage of its hash.
- Audit.TipDeterminesLog: assumes that decoded fields are at most three times as long as their line, which bounds them below the length where the first byte of a prefix would stop being zero.
