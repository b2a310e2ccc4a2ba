# vertx-proton: SASL mechanism selection and the readable buffer cursor

This project models two leaf components of the vertx-proton AMQP client and proves properties of them in Dafny.

**SASL mechanism selection.** A client picks the mechanism it authenticates with from the names the remote peer offers (`ProtonSaslMechanismFinderImpl.findMatchingMechanism`).
1. Each offered name is resolved against a closed registry of three names: PLAIN, ANONYMOUS and EXTERNAL (`findMechanismFactory`).
2. If a non-empty restriction set is configured, names outside it are dropped.
3. Mechanisms that do not report themselves applicable to the available username, password and local principal are dropped.
4. The survivors are sorted by priority with a stable sort, and the last one is taken, or nothing when none survives.

The `ProtonSaslMechanism` contract adds the seven `PRIORITY` levels, ordering by priority, and per-instance username and password slots.

**Readable buffer cursor.** This is `ProtonReadableBufferImpl` as its test class pins it down. A cursor is a window over a shared byte store with its own position, limit and mark. It keeps `0 <= mark <= position <= limit <= capacity`. Sequential, absolute, fixed-width and bulk reads and the position-control operations move that state. Every out-of-range request fails with an error and changes nothing.

## Layout

| file | module | contents |
|---|---|---|
| `wrappers.dfy` | `Wrappers` | `Option`, `Result` and `Outcome`: the model's forms of a nullable value and of an operation that may throw |
| `bytes.dfy` | `Bytes` | Java's signed `byte` (`int8`) and big-endian encodings: unsigned, and two's-complement signed, each with both round-trip lemmas |
| `readable_buffer.dfy` | `ReadableBuffers` | class `ReadableBuffer` (the cursor) and class `WritableBuffer` (the target of a transfer) |
| `readable_buffer_tests.dfy` | `ReadableBufferTests` | the tests of `ProtonReadableBufferImplTest` as methods, generalised from each test's fixed bytes to every input, with the exceptions listed below |
| `sasl_mechanism.dfy` | `SaslMechanisms` | `Priority`, the `Mechanism` kinds with their names, the priority ordering, and class `SaslMechanism` with its credential slots |
| `sasl_finder.dfy` | `SaslMechanismFinder` | the registry, the reference definition `Select`, the stable sort, the imperative `FindMatchingMechanism`, and the selection lemmas |

How the test methods relate to `ProtonReadableBufferImplTest`:
- Most test methods assert what one Java test asserts, for every input instead of the test's fixed bytes.
- `TestArrayOffset` covers both testArrayAccess and testArrayOffset.
- `TestGetBytesToWritableBuffer` covers both testGetBytesToWritableBuffer and testGetBytesToWritableBufferThatIsDirect.
- `TestWrapBuffer` leaves out the `getBuffer()` identity check, because the model has no Netty `ByteBuf`.
- `TestResetWithoutMark`, `TestSetPositionOutOfBounds` and `TestArrayAccessWhenNoArray` state the model's error rules for cases no Java test exercises. For `TestArrayAccessWhenNoArray` this is the `NoArray` failure of `array()` and `arrayOffset()`; testArrayAccessWhenNoArray itself checks only `hasArray()`.
- testByteBuffer, readUTF8 and readString have no method (see "## Left out").
- Small helpers (`NewStore`, `Wrapped`, `ReadEach`, `ReadEachAt`, `ReadNoting`, `Count`, `GetNoting`, `ReadSlice`, `MarkThenReadRest`, `GetBytesTwice`) build the cursors and keep each test's proof short.

The project verifies with

    dafny verify --resource-limit 2000000 --verification-time-limit 0 --warn-contradictory-assumptions *.dfy

## Modelling decisions

**SASL parameters.** The model does not contain the concrete PLAIN, ANONYMOUS and EXTERNAL classes. So what each kind reports as its priority, and whether it is applicable to given credentials, is a parameter: the `Capabilities` value of two total, side-effect-free functions. Every result about selection holds for every such parameter.

**Reference definition for selection.** `SaslMechanismFinder.Select` is the reference definition: the candidate list in offer order, and from it the mechanism of maximal priority, the last offered among equals (`BestOf`). `FindMatchingMechanism` follows the source step by step:
- a loop that appends to `found`;
- a stable insertion sort standing for `Collections.sort`;
- taking the last element.

The method is proved to return exactly `Select`.

**Buffer semantics not pinned by the tests.** ProtonReadableBufferImpl's own code is not modelled: the cursor does what its test class asserts. Where those tests leave a case open, the cursor fails with an error rather than clamping or ignoring the call:
- `mark` may be unset, and it starts unset. `reset()` without a mark fails with `IllegalState`.
- `limit(n)` fails unless `position <= n <= capacity`. It never clamps the position.
- `position(n)` fails unless `0 <= n <= limit`. A mark beyond the new position is discarded.
- `clear()` and `rewind()` discard the mark.
- `flip()` sets `limit := position`, then `position := mark` if a mark is set, else `0`.
- Absolute `get(i)` is valid for `position <= i < limit`, the indices of the remaining bytes. Indices count from the start of the cursor's window.

**Aliasing.** Duplicates and slices share the `store` array and have their own `position`, `limit` and `mark` fields. A bulk copy stages the bytes first, so a target that is the store itself gets memmove semantics.

## Model

| member | source | states |
|---|---|---|
| `SaslMechanisms.Priority.Value` | vertx-proton/src/main/java/io/vertx/proton/sasl/ProtonSaslMechanism.java:29-39 | `getValue` of a level is its place in declaration order, an index into `Levels` that gives back the level |
| `SaslMechanisms.FromValue` | vertx-proton/src/main/java/io/vertx/proton/sasl/ProtonSaslMechanism.java:29-35 | a level is declared with value `v` exactly when `0 <= v < 7`, and that level's `getValue` is `v` |
| `SaslMechanisms.LevelValues` | vertx-proton/src/main/java/io/vertx/proton/sasl/ProtonSaslMechanism.java:28-29 | there are exactly seven levels, LOWEST to HIGHEST, valued 0 to 6, and every level is among them |
| `SaslMechanisms.ValuesIncrease` | vertx-proton/src/main/java/io/vertx/proton/sasl/ProtonSaslMechanism.java:29-39 | values strictly increase in declaration order |
| `SaslMechanisms.FromValueOfValue` | vertx-proton/src/main/java/io/vertx/proton/sasl/ProtonSaslMechanism.java:29-39 | the level declared with a level's value is that level |
| `SaslMechanisms.Mechanism.Name` | vertx-proton/src/main/java/io/vertx/proton/sasl/ProtonSaslMechanism.java:47-50 | `getName` returns a non-empty well-known name |
| `SaslMechanisms.NameInjective` | vertx-proton/src/main/java/io/vertx/proton/sasl/impl/ProtonSaslMechanismFinderImpl.java:106-112 | distinct mechanisms have distinct names, so the registry's if-chain is unambiguous |
| `SaslMechanisms.GetPriority` | vertx-proton/src/main/java/io/vertx/proton/sasl/ProtonSaslMechanism.java:42-45 | `getPriority` is the value of a declared level, so it lies in 0..6 |
| `SaslMechanisms.CompareTo` | vertx-proton/src/main/java/io/vertx/proton/sasl/ProtonSaslMechanism.java:22-27 | `compareTo` is negative, zero or positive exactly when the first priority is lower, equal or higher |
| `SaslMechanisms.CompareToIsTotalPreorder` | vertx-proton/src/main/java/io/vertx/proton/sasl/ProtonSaslMechanism.java:22-27 | the comparison is reflexive, total, sign-antisymmetric and transitive |
| `SaslMechanisms.SaslMechanism.constructor` | vertx-proton/src/main/java/io/vertx/proton/sasl/impl/ProtonSaslMechanismFinderImpl.java:60 | `createMechanism()` yields an instance of the kind with no username and no password |
| `SaslMechanisms.SaslMechanism.SetUsername` | vertx-proton/src/main/java/io/vertx/proton/sasl/ProtonSaslMechanism.java:75-83 | stores the username, leaves the password unchanged, and returns the same instance |
| `SaslMechanisms.SaslMechanism.GetUsername` | vertx-proton/src/main/java/io/vertx/proton/sasl/ProtonSaslMechanism.java:85-90 | returns the stored username |
| `SaslMechanisms.SaslMechanism.SetPassword` | vertx-proton/src/main/java/io/vertx/proton/sasl/ProtonSaslMechanism.java:92-100 | stores the password, leaves the username unchanged, and returns the same instance |
| `SaslMechanisms.SaslMechanism.GetPassword` | vertx-proton/src/main/java/io/vertx/proton/sasl/ProtonSaslMechanism.java:102-107 | returns the stored password |
| `SaslMechanisms.SetCredentials` | vertx-proton/src/main/java/io/vertx/proton/sasl/ProtonSaslMechanism.java:75-107 | after `setUsername(u).setPassword(p)`, the getters return `u` and `p`, and both setters return the instance they were called on |
| `SaslMechanismFinder.FindMechanismFactory` | vertx-proton/src/main/java/io/vertx/proton/sasl/impl/ProtonSaslMechanismFinderImpl.java:97-115 | a name resolves to mechanism `m` exactly when it equals `m`'s name; null and empty names resolve to nothing |
| `SaslMechanismFinder.UnknownNameNeverQualifies` | vertx-proton/src/main/java/io/vertx/proton/sasl/impl/ProtonSaslMechanismFinderImpl.java:97-115 | a name other than PLAIN, ANONYMOUS and EXTERNAL resolves to no factory and never enters the found list |
| `SaslMechanismFinder.Permitted` | vertx-proton/src/main/java/io/vertx/proton/sasl/impl/ProtonSaslMechanismFinderImpl.java:61-64 | a null or empty restriction set lets every name through; a non-empty one lets through exactly its members |
| `SaslMechanismFinder.Qualify` | vertx-proton/src/main/java/io/vertx/proton/sasl/impl/ProtonSaslMechanismFinderImpl.java:58-72 | an offered name adds `m` to the found list exactly when it is `m`'s name, passes the restriction filter, and `m` is applicable |
| `SaslMechanismFinder.CandidatesMembers` | vertx-proton/src/main/java/io/vertx/proton/sasl/impl/ProtonSaslMechanismFinderImpl.java:55-73 | a mechanism is in the found list exactly when some offered name qualifies as it |
| `SaslMechanismFinder.CandidateWasOffered` | vertx-proton/src/main/java/io/vertx/proton/sasl/impl/ProtonSaslMechanismFinderImpl.java:57-73 | every mechanism in the found list was added for an offered name that qualifies as it, at an index it returns |
| `SaslMechanismFinder.OfferedIsCandidate` | vertx-proton/src/main/java/io/vertx/proton/sasl/impl/ProtonSaslMechanismFinderImpl.java:57-73 | every offered name that qualifies puts its mechanism in the found list |
| `SaslMechanismFinder.CandidatesAppend` | vertx-proton/src/main/java/io/vertx/proton/sasl/impl/ProtonSaslMechanismFinderImpl.java:57-73 | the loop is an order-preserving filter: the found list of `a + b` is that of `a` followed by that of `b` |
| `SaslMechanismFinder.BestOf` | vertx-proton/src/main/java/io/vertx/proton/sasl/impl/ProtonSaslMechanismFinderImpl.java:75-80 | nothing exactly for an empty list; otherwise a member of the list whose priority is at least that of every member |
| `SaslMechanismFinder.BestOfIsLastOfMaximal` | vertx-proton/src/main/java/io/vertx/proton/sasl/impl/ProtonSaslMechanismFinderImpl.java:76-79 | the pick sits at an index followed only by mechanisms of strictly lower priority |
| `SaslMechanismFinder.BestOfUnique` | vertx-proton/src/main/java/io/vertx/proton/sasl/impl/ProtonSaslMechanismFinderImpl.java:76-79 | conversely, any maximal element followed only by lower ones is the pick, so maximality and the tie-break determine it |
| `SaslMechanismFinder.InsertPermutes` | vertx-proton/src/main/java/io/vertx/proton/sasl/impl/ProtonSaslMechanismFinderImpl.java:78 | inserting rearranges: the result holds the list's elements plus the new one, as a multiset |
| `SaslMechanismFinder.InsertMembers` | vertx-proton/src/main/java/io/vertx/proton/sasl/impl/ProtonSaslMechanismFinderImpl.java:78 | inserting adds the new mechanism and nothing else |
| `SaslMechanismFinder.InsertSorted` | vertx-proton/src/main/java/io/vertx/proton/sasl/impl/ProtonSaslMechanismFinderImpl.java:78 | inserting into a list sorted by priority keeps it sorted |
| `SaslMechanismFinder.SortByPriority` | vertx-proton/src/main/java/io/vertx/proton/sasl/impl/ProtonSaslMechanismFinderImpl.java:78 | `Collections.sort(found)` returns a list of the same length in ascending priority |
| `SaslMechanismFinder.SortPermutes` | vertx-proton/src/main/java/io/vertx/proton/sasl/impl/ProtonSaslMechanismFinderImpl.java:78 | the sorted list is a permutation of `found` |
| `SaslMechanismFinder.InsertStable` | vertx-proton/src/main/java/io/vertx/proton/sasl/impl/ProtonSaslMechanismFinderImpl.java:78 | an inserted mechanism lands after every element of its own priority |
| `SaslMechanismFinder.SortIsStable` | vertx-proton/src/main/java/io/vertx/proton/sasl/impl/ProtonSaslMechanismFinderImpl.java:78 | at every priority, the sort keeps the mechanisms in their offer order |
| `SaslMechanismFinder.InsertLast` | vertx-proton/src/main/java/io/vertx/proton/sasl/impl/ProtonSaslMechanismFinderImpl.java:78-79 | after inserting into a sorted list, the last element is the new one if its priority is at least that of the old last, else the old last |
| `SaslMechanismFinder.SortedLastIsBest` | vertx-proton/src/main/java/io/vertx/proton/sasl/impl/ProtonSaslMechanismFinderImpl.java:76-79 | the last element of the sorted list is the priority-maximal one, the last offered among equals |
| `SaslMechanismFinder.FindMatchingMechanism` | vertx-proton/src/main/java/io/vertx/proton/sasl/impl/ProtonSaslMechanismFinderImpl.java:51-87 | the loop, sort and pick return exactly what the reference definition `Select` selects |
| `SaslMechanismFinder.SelectNoneIff` | vertx-proton/src/main/java/io/vertx/proton/sasl/impl/ProtonSaslMechanismFinderImpl.java:54-86 | the result is null exactly when no offered name is known, permitted and applicable |
| `SaslMechanismFinder.EmptyOfferSelectsNothing` | vertx-proton/src/main/java/io/vertx/proton/sasl/impl/ProtonSaslMechanismFinderImpl.java:54-86 | an empty offer selects nothing |
| `SaslMechanismFinder.SkippedNameIsIgnored` | vertx-proton/src/main/java/io/vertx/proton/sasl/impl/ProtonSaslMechanismFinderImpl.java:57-73 | inserting a non-qualifying name anywhere in the offer does not change the result |
| `SaslMechanismFinder.SelectWasOffered` | vertx-proton/src/main/java/io/vertx/proton/sasl/impl/ProtonSaslMechanismFinderImpl.java:57-60 | the selected mechanism's name occurs in the remote offer |
| `SaslMechanismFinder.SelectIsApplicable` | vertx-proton/src/main/java/io/vertx/proton/sasl/impl/ProtonSaslMechanismFinderImpl.java:65-70 | the selected mechanism is applicable to the given credentials |
| `SaslMechanismFinder.SelectRespectsRestrictions` | vertx-proton/src/main/java/io/vertx/proton/sasl/impl/ProtonSaslMechanismFinderImpl.java:61-64 | with a non-empty restriction set, the selected mechanism's name is in it, whatever the credentials |
| `SaslMechanismFinder.EmptyRestrictionsFilterNothing` | vertx-proton/src/main/java/io/vertx/proton/sasl/impl/ProtonSaslMechanismFinderImpl.java:61-67 | an empty restriction set gives the same found list, and the same result, as a null one |
| `SaslMechanismFinder.UnrestrictedCandidates` | vertx-proton/src/main/java/io/vertx/proton/sasl/impl/ProtonSaslMechanismFinderImpl.java:61-67 | without a restriction, every offered, known and applicable mechanism is a candidate |
| `SaslMechanismFinder.SelectIsMaximal` | vertx-proton/src/main/java/io/vertx/proton/sasl/impl/ProtonSaslMechanismFinderImpl.java:75-80 | the selected priority is at least that of every qualifying offered mechanism |
| `SaslMechanismFinder.SelectSnoc` | vertx-proton/src/main/java/io/vertx/proton/sasl/impl/ProtonSaslMechanismFinderImpl.java:57-80 | one more offered name is selected when it qualifies with a priority no lower than the earlier pick's; otherwise the earlier pick stands |
| `SaslMechanismFinder.SelectTieBreak` | vertx-proton/src/main/java/io/vertx/proton/sasl/impl/ProtonSaslMechanismFinderImpl.java:76-79 | the selected mechanism was offered at an index after which every qualifying offer has strictly lower priority: the last of the top priority wins |
| `SaslMechanismFinder.SameOfferedNamesSameCandidates` | vertx-proton/src/main/java/io/vertx/proton/sasl/impl/ProtonSaslMechanismFinderImpl.java:57-73 | offers with the same names give found lists with the same members |
| `SaslMechanismFinder.BestOfSameMembers` | vertx-proton/src/main/java/io/vertx/proton/sasl/impl/ProtonSaslMechanismFinderImpl.java:76-79 | when no two members share a priority, the pick depends only on the members, not their order |
| `SaslMechanismFinder.SelectIgnoresOfferOrder` | vertx-proton/src/main/java/io/vertx/proton/sasl/impl/ProtonSaslMechanismFinderImpl.java:76-79 | reordering or repeating offered names does not change the result when candidates have distinct priorities |
| `SaslMechanismFinder.PlainPreferredOverAnonymous` | vertx-proton/src/main/java/io/vertx/proton/sasl/impl/ProtonSaslMechanismFinderImpl.java:75-80 | PLAIN, ANONYMOUS offered, both applicable and PLAIN ranked higher: PLAIN is selected |
| `SaslMechanismFinder.InapplicablePlainSelectsNothing` | vertx-proton/src/main/java/io/vertx/proton/sasl/impl/ProtonSaslMechanismFinderImpl.java:65-71 | an offer of PLAIN alone selects nothing when PLAIN is not applicable |
| `SaslMechanismFinder.RestrictionSelectsAnonymous` | vertx-proton/src/main/java/io/vertx/proton/sasl/impl/ProtonSaslMechanismFinderImpl.java:61-66 | with restriction {ANONYMOUS}, ANONYMOUS is selected from PLAIN, ANONYMOUS whatever PLAIN's priority and applicability |
| `Bytes.Unsigned` | vertx-proton/src/test/java/io/vertx/tests/impl/ProtonReadableBufferImplTest.java:117-163 | the octet of a Java byte is in 0..255 and congruent to it modulo 256 |
| `Bytes.OfUnsigned` | vertx-proton/src/test/java/io/vertx/tests/impl/ProtonReadableBufferImplTest.java:117-163 | the byte of an octet is the inverse of `Unsigned` |
| `Bytes.DecodeUnsigned` | vertx-proton/src/test/java/io/vertx/tests/impl/ProtonReadableBufferImplTest.java:117-163 | the big-endian value of `n` bytes is below 256^n |
| `Bytes.EncodeUnsigned` | vertx-proton/src/test/java/io/vertx/tests/impl/ProtonReadableBufferImplTest.java:117-163 | the big-endian encoding of a value below 256^n has exactly `n` bytes |
| `Bytes.DecodeEncodeUnsigned` | vertx-proton/src/test/java/io/vertx/tests/impl/ProtonReadableBufferImplTest.java:117-163 | decoding an encoding gives the value back |
| `Bytes.EncodeDecodeUnsigned` | vertx-proton/src/test/java/io/vertx/tests/impl/ProtonReadableBufferImplTest.java:117-163 | encoding a decoded byte sequence gives the bytes back |
| `Bytes.DecodeLeadingZeros` | vertx-proton/src/test/java/io/vertx/tests/impl/ProtonReadableBufferImplTest.java:117-163 | leading zero bytes do not change a big-endian value: `{0, ..., 0, 1}` reads as 1 at every width |
| `Bytes.DecodeSignedOne` | vertx-proton/src/test/java/io/vertx/tests/impl/ProtonReadableBufferImplTest.java:117-163 | `{0, ..., 0, 1}` reads as the signed value 1 at every width |
| `Bytes.DecodeZeros` | vertx-proton/src/test/java/io/vertx/tests/impl/ProtonReadableBufferImplTest.java:165-195 | all-zero bytes read as 0 |
| `Bytes.ToSigned` | vertx-proton/src/test/java/io/vertx/tests/impl/ProtonReadableBufferImplTest.java:117-163 | the two's-complement value of an `n`-byte pattern is the pattern or the pattern minus 256^n, within the signed range |
| `Bytes.FromSigned` | vertx-proton/src/test/java/io/vertx/tests/impl/ProtonReadableBufferImplTest.java:117-163 | the pattern of a signed value fits `n` bytes and `ToSigned` inverts it |
| `Bytes.DecodeSigned` | vertx-proton/src/test/java/io/vertx/tests/impl/ProtonReadableBufferImplTest.java:117-163 | a signed big-endian value lies in `-2^(8n-1) .. 2^(8n-1) - 1` |
| `Bytes.EncodeSigned` | vertx-proton/src/test/java/io/vertx/tests/impl/ProtonReadableBufferImplTest.java:117-163 | the signed encoding of a value in range has exactly `n` bytes |
| `Bytes.DecodeEncodeSigned` | vertx-proton/src/test/java/io/vertx/tests/impl/ProtonReadableBufferImplTest.java:117-163 | decoding a signed encoding gives the value back |
| `Bytes.EncodeDecodeSigned` | vertx-proton/src/test/java/io/vertx/tests/impl/ProtonReadableBufferImplTest.java:117-163 | encoding a signed decoding gives the bytes back |
| `ReadableBuffers.ReadableBuffer.Wrap` | vertx-proton/src/test/java/io/vertx/tests/impl/ProtonReadableBufferImplTest.java:43-51 | wrapping shares the store without copying, starts at position 0 with no mark, and satisfies the invariant |
| `ReadableBuffers.ReadableBuffer.View` | vertx-proton/src/test/java/io/vertx/tests/impl/ProtonReadableBufferImplTest.java:266-293 | a further cursor over the same store with the given state, satisfying the invariant |
| `ReadableBuffers.ReadableBuffer.Remaining` | vertx-proton/src/test/java/io/vertx/tests/impl/ProtonReadableBufferImplTest.java:315-338 | `remaining()` is the number of readable bytes, the length of `Readable()` |
| `ReadableBuffers.ReadableBuffer.HasRemaining` | vertx-proton/src/test/java/io/vertx/tests/impl/ProtonReadableBufferImplTest.java:86-102 | `hasRemaining()` holds exactly when some byte is still readable |
| `ReadableBuffers.ReadableBuffer.ReclaimRead` | vertx-proton/src/test/java/io/vertx/tests/impl/ProtonReadableBufferImplTest.java:43-51 | `reclaimRead()` returns the same cursor |
| `ReadableBuffers.ReadableBuffer.Array` | vertx-proton/src/test/java/io/vertx/tests/impl/ProtonReadableBufferImplTest.java:54-69 | `array()` is the shared store exactly when the cursor has an array; otherwise it fails |
| `ReadableBuffers.ReadableBuffer.ArrayOffset` | vertx-proton/src/test/java/io/vertx/tests/impl/ProtonReadableBufferImplTest.java:459-471 | `arrayOffset()` is the window's start in the store exactly when the cursor has an array; otherwise it fails |
| `ReadableBuffers.ReadableBuffer.GetAt` | vertx-proton/src/test/java/io/vertx/tests/impl/ProtonReadableBufferImplTest.java:105-115 | `get(i)` succeeds exactly for the index of a remaining byte (`position <= i < limit`) and yields byte `i` of the window, which is readable byte `i - position`; any other index is out of bounds; the position does not move |
| `ReadableBuffers.ReadableBuffer.Get` | vertx-proton/src/test/java/io/vertx/tests/impl/ProtonReadableBufferImplTest.java:86-102 | `get()` succeeds exactly when a byte remains, returns the first readable byte and advances by one; otherwise it fails and stays put |
| `ReadableBuffers.ReadableBuffer.GetUnsigned` | vertx-proton/src/test/java/io/vertx/tests/impl/ProtonReadableBufferImplTest.java:117-195 | a `width`-byte read succeeds exactly when `width` bytes remain, returns their unsigned big-endian value, whose encoding is those bytes, and consumes them |
| `ReadableBuffers.ReadableBuffer.GetSigned` | vertx-proton/src/test/java/io/vertx/tests/impl/ProtonReadableBufferImplTest.java:117-163 | the same, for the two's-complement value, which lies in the signed range of the width |
| `ReadableBuffers.ReadableBuffer.GetShort` | vertx-proton/src/test/java/io/vertx/tests/impl/ProtonReadableBufferImplTest.java:117-131 | `getShort()` reads the next two bytes as a big-endian Java short, or fails with fewer than two left |
| `ReadableBuffers.ReadableBuffer.GetInt` | vertx-proton/src/test/java/io/vertx/tests/impl/ProtonReadableBufferImplTest.java:133-147 | `getInt()` reads the next four bytes as a big-endian Java int, or fails with fewer than four left |
| `ReadableBuffers.ReadableBuffer.GetLong` | vertx-proton/src/test/java/io/vertx/tests/impl/ProtonReadableBufferImplTest.java:149-163 | `getLong()` reads the next eight bytes as a big-endian Java long, or fails with fewer than eight left |
| `ReadableBuffers.ReadableBuffer.GetFloatBits` | vertx-proton/src/test/java/io/vertx/tests/impl/ProtonReadableBufferImplTest.java:165-179 | `getFloat()` consumes four bytes and yields their big-endian bit pattern, or fails with fewer left |
| `ReadableBuffers.ReadableBuffer.GetDoubleBits` | vertx-proton/src/test/java/io/vertx/tests/impl/ProtonReadableBufferImplTest.java:181-195 | `getDouble()` consumes eight bytes and yields their big-endian bit pattern, or fails with fewer left |
| `ReadableBuffers.ReadableBuffer.GetRange` | vertx-proton/src/test/java/io/vertx/tests/impl/ProtonReadableBufferImplTest.java:217-233 | `get(target, off, len)` succeeds exactly when the range fits the target and `len` bytes remain; then the range holds the next `len` bytes, the rest of the target is unchanged, and the position advances by `len`; on failure nothing changes |
| `ReadableBuffers.ReadableBuffer.GetBytes` | vertx-proton/src/test/java/io/vertx/tests/impl/ProtonReadableBufferImplTest.java:197-214 | `get(target)` fills the whole target with the next bytes when enough remain, and otherwise fails with nothing changed |
| `ReadableBuffers.ReadableBuffer.GetInto` | vertx-proton/src/test/java/io/vertx/tests/impl/ProtonReadableBufferImplTest.java:235-263 | `get(writable)` succeeds exactly when the target has room; then every remaining byte is appended in order, the target's bytes after its new position are untouched, and the cursor is exhausted; on failure neither side changes |
| `ReadableBuffers.ReadableBuffer.SetPosition` | vertx-proton/src/test/java/io/vertx/tests/impl/ProtonReadableBufferImplTest.java:394-411 | `position(n)` succeeds exactly when `0 <= n <= limit`, keeps the mark only if it is not beyond `n`, and otherwise changes nothing |
| `ReadableBuffers.ReadableBuffer.SetLimit` | vertx-proton/src/test/java/io/vertx/tests/impl/ProtonReadableBufferImplTest.java:295-312 | `limit(n)` succeeds exactly when `position <= n <= capacity`, and otherwise changes nothing |
| `ReadableBuffers.ReadableBuffer.Clear` | vertx-proton/src/test/java/io/vertx/tests/impl/ProtonReadableBufferImplTest.java:314-338 | `clear()` makes the whole window readable and drops the mark |
| `ReadableBuffers.ReadableBuffer.Rewind` | vertx-proton/src/test/java/io/vertx/tests/impl/ProtonReadableBufferImplTest.java:340-357 | `rewind()` makes the window up to the limit readable again and drops the mark |
| `ReadableBuffers.ReadableBuffer.Mark` | vertx-proton/src/test/java/io/vertx/tests/impl/ProtonReadableBufferImplTest.java:359-378 | `mark()` remembers the current position |
| `ReadableBuffers.ReadableBuffer.Reset` | vertx-proton/src/test/java/io/vertx/tests/impl/ProtonReadableBufferImplTest.java:359-378 | `reset()` succeeds exactly when a mark is set and makes the window from the mark to the limit readable; without a mark it fails with an illegal state |
| `ReadableBuffers.ReadableBuffer.Flip` | vertx-proton/src/test/java/io/vertx/tests/impl/ProtonReadableBufferImplTest.java:413-432 | `flip()` makes what lay between the mark (or 0) and the old position readable |
| `ReadableBuffers.ReadableBuffer.Duplicate` | vertx-proton/src/test/java/io/vertx/tests/impl/ProtonReadableBufferImplTest.java:265-278 | `duplicate()` is a fresh cursor over the same store with the same position, limit and mark, so the same readable bytes |
| `ReadableBuffers.ReadableBuffer.Slice` | vertx-proton/src/test/java/io/vertx/tests/impl/ProtonReadableBufferImplTest.java:280-293 | `slice()` is a fresh cursor whose whole window is this cursor's readable bytes, starting at position 0 with no mark |
| `ReadableBuffers.WritableBuffer.Wrap` | vertx-proton/src/test/java/io/vertx/tests/impl/ProtonReadableBufferImplTest.java:236-246 | a writable cursor over a store starts with nothing written |
| `ReadableBuffers.WritableBuffer.Free` | vertx-proton/src/test/java/io/vertx/tests/impl/ProtonReadableBufferImplTest.java:236-246 | the room left is the store's length minus the number of bytes written |
| `ReadableBuffers.PutAll` | vertx-proton/src/test/java/io/vertx/tests/impl/ProtonReadableBufferImplTest.java:235-263 | the transfer loop: `put` of each byte in turn appends exactly those bytes and leaves the target's store after them as it was |
| `ReadableBuffers.WritableBuffer.Put` | vertx-proton/src/test/java/io/vertx/tests/impl/ProtonReadableBufferImplTest.java:236-246 | `put(b)` appends `b` exactly when there is room, changing only that cell; otherwise it fails |
| `ReadableBufferTests.TestWrapBuffer` | vertx-proton/src/test/java/io/vertx/tests/impl/ProtonReadableBufferImplTest.java:42-51 | a wrapped buffer reports the wrapped capacity and `reclaimRead()` gives it back |
| `ReadableBufferTests.TestArrayOffset` | vertx-proton/src/test/java/io/vertx/tests/impl/ProtonReadableBufferImplTest.java:458-471 | a heap window exposes its array and its offset (testArrayAccess, lines 54-61 of the same file), reads the byte at that offset first, and keeps the offset after reading |
| `ReadableBufferTests.TestArrayAccessWhenNoArray` | vertx-proton/src/test/java/io/vertx/tests/impl/ProtonReadableBufferImplTest.java:63-69 | a direct buffer has no array, and `array()` and `arrayOffset()` fail (the model's error rule; the test checks only `hasArray()`) |
| `ReadableBufferTests.TestGet` | vertx-proton/src/test/java/io/vertx/tests/impl/ProtonReadableBufferImplTest.java:85-102 | repeated `get()` yields the data in order, then nothing remains and one more `get()` fails |
| `ReadableBufferTests.TestGetPosition` | vertx-proton/src/test/java/io/vertx/tests/impl/ProtonReadableBufferImplTest.java:380-392 | the position is `i` before the `i`-th `get()` and `i + 1` after it |
| `ReadableBufferTests.TestGetIndex` | vertx-proton/src/test/java/io/vertx/tests/impl/ProtonReadableBufferImplTest.java:104-115 | `get(i)` yields `data[i]` for every `i` without consuming anything |
| `ReadableBufferTests.TestGetShort` | vertx-proton/src/test/java/io/vertx/tests/impl/ProtonReadableBufferImplTest.java:117-131 | `getShort()` on two bytes is their signed big-endian value (1 for `{0, 1}`) and exhausts them; the next read fails |
| `ReadableBufferTests.TestGetInt` | vertx-proton/src/test/java/io/vertx/tests/impl/ProtonReadableBufferImplTest.java:133-147 | `getInt()` on four bytes is their signed big-endian value (1 for `{0, 0, 0, 1}`) and exhausts them; the next read fails |
| `ReadableBufferTests.TestGetLong` | vertx-proton/src/test/java/io/vertx/tests/impl/ProtonReadableBufferImplTest.java:149-163 | `getLong()` on eight bytes is their signed big-endian value (1 for seven zeros and a one) and exhausts them; the next read fails |
| `ReadableBufferTests.TestGetFloat` | vertx-proton/src/test/java/io/vertx/tests/impl/ProtonReadableBufferImplTest.java:165-179 | `getFloat()` on four bytes yields their bit pattern (0 for zeros) and exhausts them; the next read fails |
| `ReadableBufferTests.TestGetDouble` | vertx-proton/src/test/java/io/vertx/tests/impl/ProtonReadableBufferImplTest.java:181-195 | `getDouble()` on eight bytes yields their bit pattern (0 for zeros) and exhausts them; the next read fails |
| `ReadableBufferTests.TestGetBytes` | vertx-proton/src/test/java/io/vertx/tests/impl/ProtonReadableBufferImplTest.java:197-214 | `get(target)` copies exactly the data and exhausts the cursor; a repeat call fails (for non-empty data) and leaves the target as it was |
| `ReadableBufferTests.TestGetBytesIntInt` | vertx-proton/src/test/java/io/vertx/tests/impl/ProtonReadableBufferImplTest.java:216-233 | the same for `get(target, 0, length)` |
| `ReadableBufferTests.TestGetBytesToWritableBuffer` | vertx-proton/src/test/java/io/vertx/tests/impl/ProtonReadableBufferImplTest.java:235-263 | `get(writable)` writes exactly the data and exhausts the cursor, whether the source is heap- or direct-backed |
| `ReadableBufferTests.TestDuplicate` | vertx-proton/src/test/java/io/vertx/tests/impl/ProtonReadableBufferImplTest.java:265-278 | after `skip` reads, a duplicate reads exactly the rest, and reading it leaves the source's position and remaining count alone |
| `ReadableBufferTests.TestSlice` | vertx-proton/src/test/java/io/vertx/tests/impl/ProtonReadableBufferImplTest.java:280-293 | after `skip` reads, a slice has capacity equal to the rest and reads exactly the rest, leaving the source's position alone |
| `ReadableBufferTests.TestLimit` | vertx-proton/src/test/java/io/vertx/tests/impl/ProtonReadableBufferImplTest.java:295-312 | `limit(n)` makes `limit()` return `n`; `n` reads then exhaust the cursor and the next `get()` fails |
| `ReadableBufferTests.TestClear` | vertx-proton/src/test/java/io/vertx/tests/impl/ProtonReadableBufferImplTest.java:314-338 | after `get(target)` has consumed everything, a repeat `get(target)` fails (for non-empty data); `clear()` gives `remaining() == capacity` and the whole data reads again |
| `ReadableBufferTests.TestRewind` | vertx-proton/src/test/java/io/vertx/tests/impl/ProtonReadableBufferImplTest.java:340-357 | after full consumption, `rewind()` makes the whole data readable again |
| `ReadableBufferTests.TestReset` | vertx-proton/src/test/java/io/vertx/tests/impl/ProtonReadableBufferImplTest.java:359-378 | `mark()` at `at`, full consumption, then `reset()` reproduces exactly the bytes from `at` on |
| `ReadableBufferTests.TestResetWithoutMark` | vertx-proton/src/test/java/io/vertx/tests/impl/ProtonReadableBufferImplTest.java:359-378 | `reset()` without a mark fails with an illegal state and leaves the position where it was (the model's error rule; the test exercises only the marked case) |
| `ReadableBufferTests.TestSetPosition` | vertx-proton/src/test/java/io/vertx/tests/impl/ProtonReadableBufferImplTest.java:394-411 | after full consumption, `position(n)` makes the data from `n` on readable again |
| `ReadableBufferTests.TestSetPositionOutOfBounds` | vertx-proton/src/test/java/io/vertx/tests/impl/ProtonReadableBufferImplTest.java:394-411 | `position(n)` outside `0..limit` fails and does not move the cursor (the model's error rule; the test exercises only the in-range case) |
| `ReadableBufferTests.TestFlip` | vertx-proton/src/test/java/io/vertx/tests/impl/ProtonReadableBufferImplTest.java:413-432 | `mark()` at `at`, full consumption, then `flip()` makes exactly the bytes from `at` on readable again, with the limit at the end of the data |

## Left out

- `getInitialResponse` and `getChallengeResponse`: the concrete PLAIN, ANONYMOUS and EXTERNAL classes that compute these bytes are not part of this model, and neither is `SaslException`.
- The concrete priorities and applicability rules of PLAIN, ANONYMOUS and EXTERNAL: they are parameters (`Capabilities`), for the same reason.
- `SaslMechanismFinder.FindMatchingMechanism`: returns the selected mechanism kind, not a fresh instance. The instances that `createMechanism()` makes for every known offered name carry no state the selection reads.
- `SaslMechanisms.IsApplicable`: carries no contract of its own. It is the parameter's applicability function; the only source promise about it is that it is side-effect free, and the model's functions guarantee that.
- `SaslMechanismFinder.SortByPriority`: stands for `Collections.sort` as a stable insertion sort on a sequence, not an in-place merge sort on an `ArrayList`. Only the visible result (a stable ascending permutation) is modelled.
- Logging: the trace and warn messages have no effect on the result.
- `byteBuffer()`: a Java NIO interop view, outside this model.
- `readUTF8` and `readString`: they need a charset decoder, which is outside this model.
- `ReadableBuffers.ReadableBuffer.GetFloatBits` and `GetDoubleBits`: return the big-endian IEEE 754 bit pattern, not a floating-point value, because there is no floating point here.
- Netty `ByteBuf` internals and reference counting: not modelled. Heap versus direct memory is only the `hasArray` flag, and content changes through one cursor are visible through every cursor sharing the store.
- `ReadableBuffers.WritableBuffer`: has a fixed capacity and fails when full, where a Netty-backed writable buffer may grow; it models only what a transfer target needs.
- The `Principal` and the TLS session: the model sees the principal's name (`Principal(name)`, or none), not the TLS session it comes from.
- Null arguments: Java throws `NullPointerException` for a null `remoteMechanisms` array in `findMatchingMechanism` and for a null target array in `get(byte[])` and `get(byte[], int, int)`; the model's sequences and arrays cannot be null.
- Concurrency: both components are single-threaded per cursor and per call.
