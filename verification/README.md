# TTL hierarchy normalizer of a prompt-cache planner

The planner puts cache breakpoints into requests bound for a language-model
API. Each breakpoint carries one of the provider's two retention tiers. On
the wire these are the literals `"5m"` (short) and `"1h"` (long). The
provider caches every earlier breakpoint's span as a prefix of each later
one. A short breakpoint in front of a long one would therefore waste the
long retention.

`upgradeTTLHierarchy` fixes this on the ordered slice of `CacheCandidate`
records, in place. Let L be the index of the last candidate whose TTL is
`"1h"`. Every candidate at or before L is raised to `"1h"`, and every
candidate after L is left alone. With no `"1h"` candidate, nothing changes.

The Go body of `upgradeTTLHierarchy` is not among the files here; its
behaviour is taken from `internal/cache/cache_ttl_order_test.go`, which
calls it on a slice and then checks that same slice.

Modules:

- `Optional` (`optional.dfy`): the `Option` datatype used by the decoders.
- `Tiers` (`tiers.dfy`): the `Tier` datatype (`Short`/`Long`), its wire
  literals, and `Parse`, which rejects any other string.
- `Candidates` (`candidates.dfy`): `WireCandidate` holds the four fields of
  the repository's `CacheCandidate` that the tests set: Position, TTL (a
  string), Tokens and ContentType. `Candidate` is the same record with the
  TTL decoded. Whole sequences
  decode and encode, and the two are proved to round-trip.
- `Normalizer` (`normalizer.dfy`): `LastLong`, the pure `Normalize` over
  `seq<Candidate>`, and a recursive reference definition
  (`NormalizeFromBack`) proved equal to it. Also the lemmas for shape,
  no-downgrade, minimality, idempotence and the no-long case.
  `UpgradeTtlHierarchy` is the same transform on the wire records.
- `NormalizerInPlace` (`normalizer_inplace.dfy`): the in-place form. One
  forward scan finds L, then one loop raises the prefix of an
  `array<Candidate>`. The result is proved equal to `Normalize`.
- `Scenarios` (`scenarios.dfy`): the three subtests of `TestTTLUpgradeLogic`
  on the exact records they build, and the end-to-end expectation of
  `TestCacheTTLOrdering` stated about the normalizer.

The test sets four fields of `CacheCandidate`: Position, TTL, Tokens and
ContentType. The model keeps those four.

## Model

| member | source | states |
|---|---|---|
| Tiers.Parse | internal/cache/cache_ttl_order_test.go:112-117 | a TTL string is accepted exactly when it is `"5m"` or `"1h"`, and the tier read back prints as the same literal |
| Tiers.Literal | internal/cache/cache_ttl_order_test.go:113-116 | a tier prints as one of the two wire literals, and the literal is `"1h"` exactly for the long tier (so the short tier prints `"5m"`) |
| Tiers.ParseLiteral | internal/cache/cache_ttl_order_test.go:121 | parsing a tier's literal returns that tier |
| Candidates.ToWire | internal/cache/cache_ttl_order_test.go:97-98 | the record keeps the candidate's Position, Tokens and ContentType, and its TTL string parses back to the candidate's tier |
| Candidates.EncodeAll | internal/cache/cache_ttl_order_test.go:112-117 | the encoded slice has the same length, only valid TTL literals, and at each index the wire record of the candidate at that index |
| Candidates.FromWire | internal/cache/cache_ttl_order_test.go:96-99 | a record decodes exactly when its TTL is one of the two literals, and re-encoding gives back the same record |
| Candidates.DecodeAll | internal/cache/cache_ttl_order_test.go:112-117 | a slice decodes exactly when every TTL is a valid literal, and re-encoding gives back the same slice |
| Candidates.DecodeEncode | internal/cache/cache_ttl_order_test.go:132-138 | decoding the wire form of any candidate sequence returns that sequence |
| Normalizer.LastLong | internal/cache/cache_ttl_order_test.go:130-137 | the index is -1 or points at a long candidate, and every candidate after it is short |
| Normalizer.Normalize | internal/cache/cache_ttl_order_test.go:110-149 | length, order, Position, Tokens and ContentType are kept; a candidate ends up long exactly when it or a later one was long; every other candidate is returned unchanged |
| Normalizer.NormalizeShape | internal/cache/cache_ttl_order_test.go:121 | every candidate up to the last original long one is long afterwards, and every candidate after it equals the input |
| Normalizer.NoLongUnchanged | internal/cache/cache_ttl_order_test.go:95-108 | with no long candidate the output equals the input |
| Normalizer.NormalizeUpgrades | internal/cache/cache_ttl_order_test.go:133-142 | no tier is lowered, only tiers change, and the output has no short candidate before a long one |
| Normalizer.NormalizeIsLeast | internal/cache/cache_ttl_order_test.go:113-121 | every other prefix-consistent upgrade of the input is long wherever the normalized output is long, so the normalizer raises only what it must |
| Normalizer.ConsistentIsFixpoint | internal/cache/cache_ttl_order_test.go:142 | a sequence with no short candidate before a long one is returned unchanged |
| Normalizer.Idempotent | internal/cache/cache_ttl_order_test.go:142 | normalizing the output again changes nothing |
| Normalizer.LastLongPreserved | internal/cache/cache_ttl_order_test.go:136-142 | the output's last long index equals the input's |
| Normalizer.FromBackCharacterized | internal/cache/cache_ttl_order_test.go:130-149 | the recursive back-to-front definition keeps every field but the tier; a candidate ends up long exactly when it or a later one was long; other candidates are unchanged |
| Normalizer.NormalizeMatchesReference | internal/cache/cache_ttl_order_test.go:130-149 | the single-scan normalizer equals the recursive back-to-front definition on every input |
| Normalizer.UpgradeTtlHierarchy | internal/cache/cache_ttl_order_test.go:101-107 | on the wire records, the result exists exactly when every TTL is `"5m"` or `"1h"`; it keeps length, order and the other fields, and contains only those two literals; a TTL is `"1h"` exactly when a `"1h"` sits at or after it; every other record is unchanged |
| NormalizerInPlace.FindLastLong | internal/cache/cache_ttl_order_test.go:130-137 | one forward scan returns -1 or a long index with only short candidates after it, which is `LastLong` |
| NormalizerInPlace.UpgradeInPlace | internal/cache/cache_ttl_order_test.go:119-127 | after the in-place pass the array holds exactly `Normalize` of its old contents |
| Scenarios.UpgradeYieldsExpected | internal/cache/cache_ttl_order_test.go:119-127 | on well-formed input, the result is each record with `"1h"` where a `"1h"` sits at or after it, and the unchanged record elsewhere |
| Scenarios.NoUpgradesNeeded | internal/cache/cache_ttl_order_test.go:95-108 | two `"5m"` candidates stay `"5m"` |
| Scenarios.UpgradePrecedingCandidates | internal/cache/cache_ttl_order_test.go:111-128 | `5m,5m,1h,5m` becomes `1h,1h,1h,5m` with the other fields unchanged |
| Scenarios.MultipleLongTtls | internal/cache/cache_ttl_order_test.go:131-149 | `5m,1h,5m,1h,5m` becomes `1h,1h,1h,1h,5m` with the other fields unchanged |
| Scenarios.LastLongUpgradesAll | internal/cache/cache_ttl_order_test.go:75-81 | when the last candidate is long, every candidate ends up long |

## Left out

- `NewCacheInjector`, `InjectCacheControl` and the building of the cache metadata and its breakpoint list are left out. Their implementation is not part of this model. The end-to-end test appears only as `Scenarios.LastLongUpgradesAll`, a statement about the normalizer.
- Content classification is left out: the stability-phrase lexicon, token estimation and per-strategy thresholds. It is heuristic policy, and its code is not part of this model.
- Strategy-based selection and trimming to the provider's breakpoint ceiling are left out. Their code is not part of this model, and no test covers them.
- The model-name argument of `upgradeTTLHierarchy` is dropped. The tests show no effect of it.
- The receiver of `upgradeTTLHierarchy` is not an input to the model: the injector and its strategy, endpoint, key and logger. The tests build it with `StrategyAggressive` and with `StrategyModerate` and show no effect of either on the upgrade.
- The logger, the API endpoint and key, and all HTTP and configuration plumbing are left out. They are I/O and external collaborators.
- Normalizer.UpgradeTtlHierarchy: returns `None` for a TTL other than `"5m"` or `"1h"`. How the Go implementation treats such strings is not part of this model, and the repository's tests use only the two literals.
- Any field of `CacheCandidate` other than Position, TTL, Tokens and ContentType is not modelled. The tests build the records with keyed literals, which show only those four fields. So "nothing else changes" is stated for those four fields only.
