# hashbuster in Dafny

A model of the candidate-generation logic of `hashbuster.py`, a password
cracker that hashes candidates until one matches a target hash. It has two
attack modes. The model covers both candidate sources and the checks around
them:

- **Brute force.** A candidate index becomes a password by repeated
  division by the size of the character set (`brute_worker`). For each
  length from 1 to the maximum, the keyspace `base ** length` is cut into
  one work unit per process (`brute_force_attack`). Each worker scans its
  unit for the first password the checker accepts.
- **Dictionary.** Each wordlist line is stripped and yielded as it is, or,
  with mutation on, replaced by its mutation set (`generate_candidates`,
  `mutate_word`). That set holds the case variants, a leet-speak form, and
  the word followed by every number below 100, zero-padded and plain.
- **Target hash.** The target is validated before the search
  (`validate_hash`). Each candidate is compared with it (`check_candidate`).

Modules:

| module | file | content |
|---|---|---|
| `Common` | `common.dfy` | `Option`, `Result`, `Min`, `Max` |
| `Text` | `text.dfy` | Python's `lower`, `upper`, `capitalize`, `strip`, `str(n)` and `{n:02d}`, on ASCII |
| `Keyspace` | `keyspace.dfy` | index → password decoding (a function, and the loop as a method), digit-value inverse, first-match scan of a work unit |
| `Chunking` | `chunking.dfy` | chunk size, the chunk list, its coverage, the length loop of the brute-force attack, the repaired chunking |
| `Mutation` | `mutation.dfy` | the leet table, the mutation set (a function, and the set-building loop as a method), its members and size |
| `Dictionary` | `dictionary.dfy` | the candidate stream of a wordlist, as a relation that leaves set iteration order open |
| `HashCheck` | `hashcheck.dfy` | hash validation, hex digests, the candidate check |

The model treats these as parameters:

- **Checker.** In the brute-force mode the checker is a parameter
  `accepts: string -> bool`. It stands for `check_candidate` applied to the
  target hash.
- **Digest algorithms.** The hashlib digest is a parameter
  `digest: (Algorithm, string) -> Option<seq<byte>>`.
- **bcrypt.** bcrypt's verifier is a parameter
  `checkpw: (string, string) -> Option<bool>`. Its presence is a boolean
  `bcryptAvailable`. In both, `None` stands for an exception, which
  `check_candidate` turns into "no match".

Code behaviours the model follows:

- **Chunk remainder.** The chunk list leaves the last
  `total - processes * size` indices in no unit; see Findings.
- **`capitalize`.** Python's `str.capitalize` lower-cases every character
  after the first (`Mutation.CapitalizeLowersRest`).
- **Process count below 1.** `brute_force_attack` fails with a non-empty
  length range: `total // 0` raises `ZeroDivisionError`, and a negative
  count makes `multiprocessing.Pool` raise. The model returns these as
  `Err(ZeroDivision)` and `Err(PoolSize)`.
- **Empty password.** `brute_worker` tests the returned candidate for
  truth, so the empty password of length 0 is never reported.

## Model

| member | source | states |
|---|---|---|
| Keyspace.Decode | hashbuster.py:90-95 | the password for an index has exactly `length` characters, each one from the charset |
| Keyspace.DecodeIndex | hashbuster.py:90-95 | the divmod loop that collects remainders least significant first and then reverses them yields exactly `Decode` |
| Keyspace.ValueOfDecode | hashbuster.py:91-95 | for a charset without repeats and `idx < base^length`, reading the password's symbols as base-`base` digits, most significant first, gives back `idx` |
| Keyspace.DecodeOfValue | hashbuster.py:91-95 | every password over the charset is the decoding of its digit value at its own length, so every such password is in the keyspace |
| Keyspace.DecodeInjective | hashbuster.py:91-95 | two indices below `base^length` that decode to the same password are equal |
| Keyspace.DecodePads | hashbuster.py:91-95 | an index below `base^length` decoded to `length + 1` characters is the shorter password with a leading `charset[0]` |
| Keyspace.FirstMatch | hashbuster.py:89-98 | the result is the smallest index of `range(start, end)` whose password is accepted: accepted, in range, and every earlier index rejected; None means every index in range is rejected, and an empty range gives None |
| Keyspace.WorkerResult | hashbuster.py:89-98 | a worker result is a password of the unit's length over the charset that the checker accepts; no result means every index of the unit decodes to a rejected password |
| Keyspace.BruteWorker | hashbuster.py:86-98 | the worker returns the password of the first accepted index of its unit, or None; None for length 0 |
| Chunking.ChunkSize | hashbuster.py:106 | the chunk size is at least 1, and it is 1 or its multiple by the process count stays within the keyspace |
| Chunking.Chunks | hashbuster.py:107-108 | exactly `processes` units, each for this length and each ending at or before `total` |
| Chunking.ChunksOrdered | hashbuster.py:107-108 | each unit ends at or before the start of every later unit, and starts increase strictly |
| Chunking.ChunksDisjoint | hashbuster.py:107-108 | no index lies in two units |
| Chunking.ChunksCover | hashbuster.py:105-108 | an index lies in some unit exactly when it is below `min(processes * chunk_size, total)` |
| Chunking.ReachIsTotal | hashbuster.py:105-108 | the units reach `total` exactly when the process count divides `total` or is at least `total` |
| Chunking.UnitsExhausted | hashbuster.py:115-122 | when every unit's worker comes back empty, no index the units cover decodes to an accepted password |
| Chunking.ScanUnits | hashbuster.py:115-122 | a result is the worker result of one of the units; no result means every unit's worker came back empty |
| Chunking.BruteForceAttack | hashbuster.py:100-129 | it fails exactly when some length is due and the process count is below 1, with the division error for 0. A found password has a length from 1 to the maximum, is accepted, is the worker result of a unit of its length, and every shorter length was exhausted. No result means every length from 1 to the maximum was exhausted |
| Chunking.ExhaustedRulesOutAll | hashbuster.py:104-108 | where the units cover the keyspace, an exhausted length has no accepted password over the charset |
| Chunking.MissedPassword | hashbuster.py:105-108 | with charset "abc" and 2 processes the units of length 1 are `(1,0,1)` and `(1,1,2)`; "c" is index 2 and the length counts as exhausted although "c" is accepted |
| Chunking.MissedPasswordAttack | hashbuster.py:100-129 | the whole attack on that input, accepting only "c", reports no password |
| Chunking.CoveringChunksOrdered | hashbuster.py:107-108 | the repaired units stay ordered and disjoint |
| Chunking.CoveringChunksCover | hashbuster.py:107-108 | the repaired units cover exactly `range(0, total)` |
| Chunking.CoveringExhausted | hashbuster.py:104-108 | with the repaired units, when every worker of a length comes back empty, no password of that length over the charset is accepted |
| Chunking.RepairedBruteForceAttack | hashbuster.py:100-129 | the attack over the repaired units fails in the same cases. A found password is accepted, is over the charset, has a length from 1 to the maximum, and every shorter password over the charset is rejected. No result means no password of 1 to the maximum characters over the charset is accepted |
| Chunking.RepairedFindsPassword | hashbuster.py:100-129 | on the input that defeats the unrepaired attack, the repaired attack finds "c" |
| Mutation.Leet | hashbuster.py:23-30 | the leet form has the word's length, no letter of `aAeEiIoOsStT`, each such letter replaced by its digit from the table, and every other character kept |
| Mutation.LeetIdempotent | hashbuster.py:23-30 | translating twice gives the same as once |
| Mutation.LeetIgnoresCase | hashbuster.py:23-30 | translating commutes with lower-casing and with upper-casing |
| Mutation.SuffixedMembers | hashbuster.py:34-36 | a string is added by the first `n` rounds of the suffix loop exactly when it is the word followed by a number below `n`, padded or plain |
| Mutation.SuffixedFresh | hashbuster.py:34-36 | each round adds strings that no earlier round added |
| Mutation.SuffixedSize | hashbuster.py:34-36 | the first `n` rounds add `2n` strings for `n ≤ 10` and `n + 10` after that |
| Mutation.BaseAndSuffixedDisjoint | hashbuster.py:16-36 | no base variant equals a suffixed word |
| Mutation.MutationsMembers | hashbuster.py:15-38 | the result holds the word, its lower, upper, capitalized and leet forms, and the word with each number below 100 appended padded and plain, and nothing else |
| Mutation.MutationsSize | hashbuster.py:15-38 | the result has between 111 and 115 members |
| Mutation.MutateWord | hashbuster.py:15-38 | the set built by the add calls and the suffix loop is exactly the mutation set, of 111 to 115 members |
| Mutation.PasswordBaseVariants | hashbuster.py:17-31 | "password", "PASSWORD" and "P455w0rd" are mutations of "Password" |
| Mutation.PasswordSuffixes | hashbuster.py:34-36 | "Password07", "Password7" and "Password42" are mutations of "Password" |
| Mutation.CapitalizeLowersRest | hashbuster.py:20 | capitalizing "pASSWORD" gives "Password" |
| Text.Lower | hashbuster.py:18 | the lower-case form keeps the length and every character that is not an upper-case letter, and turns each upper-case letter into the lower-case letter whose upper case it is |
| Text.Upper | hashbuster.py:19 | the upper-case form keeps the length and every character that is not a lower-case letter, and turns each lower-case letter into the upper-case letter whose lower case it is |
| Text.Capitalize | hashbuster.py:20 | the capitalized form agrees with the word once both are lower-cased, its first character is not lower case and no later character is upper case: the first letter upper-cased and the rest lower-cased |
| Text.CapitalizeIgnoresCase | hashbuster.py:20 | capitalizing the lower-case or upper-case form gives the same as capitalizing the word |
| Text.Strip | hashbuster.py:43 | the stripped line neither starts nor ends with whitespace and is no longer than the line |
| Text.StripIsSlice | hashbuster.py:43 | the stripped line is a slice of the line with only whitespace before and after it |
| Text.StripIdempotent | hashbuster.py:43 | stripping twice gives the same as once |
| Text.Decimal | hashbuster.py:36 | `str(i)` is made of digits only: one digit for `i` below 10, two for `i` from 10 to 99 |
| Text.Pad2 | hashbuster.py:35 | `f"{i:02d}"` is made of digits only, and has exactly two of them for `i` below 100 |
| Text.DecimalValue | hashbuster.py:36 | `str(n)` reads back as `n` |
| Text.Pad2Value | hashbuster.py:35 | `f"{n:02d}"` reads back as `n` |
| Text.RenderingsDistinct | hashbuster.py:35-36 | different numbers have different renderings, and a padded rendering equals a plain one only for the same number of two or more digits |
| Dictionary.SomeStream | hashbuster.py:42-47 | every wordlist has a candidate stream |
| Dictionary.ListsMembers | hashbuster.py:42-47 | a listing of several sets one after another holds exactly their members |
| Dictionary.YieldsMembers | hashbuster.py:42-47 | a candidate is yielded exactly when it is a candidate of some line |
| Dictionary.EnumerationSize | hashbuster.py:45 | a listing of a set that yields every member once has the set's size |
| Dictionary.YieldsPlain | hashbuster.py:44-47 | without mutation the only stream is the stripped lines in file order, duplicates kept |
| Dictionary.MutatedStreamLength | hashbuster.py:44-45 | with mutation on, the stream has between 111 and 115 candidates per line |
| HashCheck.AllHex | hashbuster.py:145 | the check holds exactly when every character is in `0-9a-f` |
| HashCheck.ValidateHash | hashbuster.py:131-146 | a bcrypt target passes exactly when bcrypt is available and it starts with `$2a$`, `$2b$` or `$2y$`; a digest target passes exactly when its length is the type's (32, 40, 64, 128) and it is lower-case hex; each error occurs exactly when the earlier checks pass and its own fails |
| HashCheck.HexEncode | hashbuster.py:57 | a hex digest has two lower-case hex digits per byte |
| HashCheck.DecodeEncode | hashbuster.py:57 | decoding a hex digest gives back the bytes |
| HashCheck.EncodeDecode | hashbuster.py:57 | an even-length lower-case hex string is the hex digest of its decoding |
| HashCheck.ValidDigestIsEncoding | hashbuster.py:139-146 | a digest target passes validation exactly when it is the hex digest of some byte string of the type's digest size |
| HashCheck.CheckCandidate | hashbuster.py:49-61 | an exception from bcrypt or hashlib is no match; bcrypt's true verdict is a match and its false one is not; against a target that passes validation, a digest candidate matches exactly when its digest is the byte string the target's hex spells out |
| HashCheck.MatchNeedsValidTarget | hashbuster.py:55-57 | when the digest has the algorithm's size, a target that some candidate matches passes validation |

## Left out

- Process pools, `imap_unordered`, `terminate`, `close`, `join` and `KeyboardInterrupt` (hashbuster.py:66-83, 110-128) are left out: they exist for concurrency and cancellation.
- Chunking.BruteForceAttack: scans the units of a length in list order instead of in the pool's completion order. So its contract only says that the password is some unit's first match at the shortest length that has one, not which unit's.
- `dictionary_attack` (hashbuster.py:63-84) is left out. It is the candidate stream fed to the pool, and its first non-None `check_candidate` result is in completion order.
- hashlib and bcrypt (hashbuster.py:52, 55-57) are left out as foreign libraries. They are the parameters `digest` and `checkpw`.
- Reading the wordlist file (hashbuster.py:41) is left out as I/O. The model takes the file as a sequence of lines, and the decoding errors it ignores are not modelled.
- The bcrypt import probe (hashbuster.py:10-13) is left out as depending on the environment. It is the parameter `bcryptAvailable`.
- `main` (hashbuster.py:148-204) is left out: argument parsing, printing, exit codes and timing.
- Text.Strip: removes only the ASCII whitespace of `str.strip`, not its other Unicode whitespace.
- Text.Capitalize: `lower`, `upper` and `capitalize` map only ASCII letters, not Unicode case.
- Dictionary.YieldsMembers: the order in which `yield from` walks a mutation set is left open. The stream is a relation between lines and outputs, with any order of each set allowed.
- HashCheck.ValidateHash: `hash_type` is an enumeration, so the `KeyError` for an unknown type cannot arise.
- Keyspace.BruteWorker: requires a non-empty charset for a unit of length 1 or more with a non-empty range, where Python's `divmod` by 0 would raise `ZeroDivisionError`; that error is not modelled, and the attack never creates such a unit because its keyspace is then empty.

## Findings

| source | as written | input that shows it | evidently intended | confidence | as-written member | corrected member |
|---|---|---|---|---|---|---|
| hashbuster.py:106-108 | units are `(i * size, min((i + 1) * size, total))` for `i < processes`, so when `processes` does not divide `total` and `processes < total` the last `total - processes * size` indices are in no unit | charset "abc", 2 processes, maximum length 1, target password "c": the units are `range(0, 1)` and `range(1, 2)`, "c" is index 2, and the attack reports no password | the last unit runs to `total`, so the units cover the whole keyspace and no result means no password up to the maximum length is accepted | high (not executed) | Chunking.MissedPasswordAttack | Chunking.RepairedBruteForceAttack |
