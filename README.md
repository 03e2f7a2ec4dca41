# xdg-xattr: the attribute record mapper

A model of the `xdg-xattr` Rust crate. The crate maps a record of nine optional file-metadata fields to the
extended attributes of one filesystem object, under the `user.xdg.*` keys of the freedesktop.org Common
Extended Attributes convention, and back again:

- `comment`, `creator` and `language`
- `tags`: a list stored as one comma-joined string under `user.xdg.tags`
- the origin URL and the referrer URL
- the subject, sender and message id of an origin email

Reading (`Attributes::read_file`) looks up each key and decodes the bytes as UTF-8. A failed lookup, a missing
key and undecodable bytes all make the field absent, and the read as a whole never fails. The tags are split at
every comma. Writing (`Attributes::write_file`) sets the key of each present field to the UTF-8 bytes of its
text, in a fixed order. It stops at the first failing set and does not roll back the sets before it. It never
removes an attribute.

The modules are:

- `Wrappers`: `Option`, `Result`, and `Outcome` (Rust's `Result<(), E>`).
- `CommaList`: `csv` (`Split`) and `[String]::join(",")` (`Join`), with their round trips and where they fail.
- `XattrStore`: the attribute store as a value `Fs`:
  - the attribute map;
  - the keys whose `get` fails;
  - the keys whose `set` fails;
  - the log of the keys a `set` was attempted on.

  It also holds `Get`/`Set` in the shape of `xattr::get`/`xattr::set`, and an abstract UTF-8 codec `Utf8`. The
  codec's predicate `Sound` says that decoding an encoding gives the text back, and that a successful decode
  re-encodes to the same bytes.
- `AttributeRecord`: the `Attributes` record, the `Field` names, the key table `Key`, the write order, and
  `Text`, the text a field is stored as.
- `Mapper`: `get_xattr`, `read_file` and `write_file`.
  - `write_file` is a method with the source's nine conditional blocks and early returns. It takes a store
    and returns the next store and the outcome.
  - It is proved equal to `WriteResult`, a left fold of `SetStep` over the steps `Steps(rec)`.
  - Lemmas about that fold give the outcome, the applied sets, the untouched keys and the attempted sets.
- `RoundTrip`: what a read sees after a write, and what writing back a read does to the store.

## Model

| member | source | states |
|---|---|---|
| CommaList.Split | src/lib.rs:10-12 | splitting at commas always gives at least one piece, and no piece contains a comma |
| CommaList.SplitCount | src/lib.rs:10-12 | there is one more piece than there are commas in the input, so empty pieces are kept |
| CommaList.SplitSingle | src/lib.rs:10-12 | a comma-free string splits into the one-element list of itself |
| CommaList.SplitExamples | src/lib.rs:10-12 | `"a,,b"` splits into `["a", "", "b"]` and the empty string into `[""]` |
| CommaList.JoinSplit | src/lib.rs:94-96 | joining the pieces of any string with commas gives back the string |
| CommaList.SplitJoin | src/lib.rs:94-96 | splitting the join of a non-empty list of comma-free tags gives back the list |
| CommaList.EmptyListDoesNotRoundTrip | src/lib.rs:94-96 | the empty tag list joins to `""`, which splits into `[""]` and not into `[]` |
| CommaList.CommaInTagDoesNotRoundTrip | src/lib.rs:94-96 | a tag holding a comma is split in two on the way back (`["a,b"]` comes back as `["a", "b"]`) |
| CommaList.JoinExample | src/lib.rs:94-96 | `["alpha", "beta", "gamma"]` joins to `"alpha,beta,gamma"` and splits back into the list |
| AttributeRecord.KeyInjective | src/lib.rs:61-69 | distinct fields have distinct keys, every key starts with `user.xdg.`, and the referrer is `user.xdg.referrer.url` |
| AttributeRecord.Position | src/lib.rs:84-114 | every field comes in the write order exactly once |
| AttributeRecord.OrderKeysDistinct | src/lib.rs:84-114 | the keys at two different steps of a write differ |
| AttributeRecord.TextsDetermineRecord | src/lib.rs:14-57 | two records whose string fields have the same texts and whose tags agree are equal |
| Mapper.GetXattr | src/lib.rs:2-7 | the text is returned exactly when the lookup succeeds, the key is present and its bytes decode; it is then their decoding |
| Mapper.ReadFile | src/lib.rs:60-82 | the read never fails; each string field is `GetXattr` of its key; tags are absent exactly when `GetXattr` of `user.xdg.tags` is; present tags are a non-empty list of comma-free strings that joins to that text |
| Mapper.StepsFollowTable | src/lib.rs:84-114 | the write's nine steps use the key table of the read, field by field in the write order, and no two of them set the same key |
| Mapper.FirstFailure | src/lib.rs:84-114 | the index found is a step with a text whose key is refused, and no earlier step is one; it is the end when there is none |
| Mapper.SetIfPresent | src/lib.rs:85-87 | one block sets the key to the encoded text when there is one and does nothing otherwise; run as step `k` of a write that has succeeded so far, it advances the write by one step |
| Mapper.FailureSticks | src/lib.rs:84-114 | once a step has failed, the later steps change neither the store nor the outcome |
| Mapper.WriteFile | src/lib.rs:84-114 | the nine early-returning blocks produce exactly the store and outcome of the fold `WriteResult` |
| Mapper.WriteOutcome | src/lib.rs:84-114 | a write never changes which keys fail; it fails exactly when some step with a text is refused, with the error of the first such step, and otherwise returns `Ok(())` |
| Mapper.WriteApplied | src/lib.rs:84-114 | each step with a text before the first refused one leaves its key holding the encoded text; a later failure does not undo it |
| Mapper.WriteFrame | src/lib.rs:84-114 | a key that no step with a text before the first refused one sets keeps its value, or stays absent |
| Mapper.WriteOfStep | src/lib.rs:84-114 | with distinct keys, a step's key ends up holding the encoded text when the step precedes the first refused set, and keeps its old value or absence otherwise |
| Mapper.WriteKeepsKeys | src/lib.rs:84-114 | a write never removes an attribute |
| Mapper.WriteAttempts | src/lib.rs:84-114 | the sets attempted are those of the steps with a text, in order, up to and including the first refused one; none after it is attempted |
| Mapper.WriteSucceedsIff | src/lib.rs:84-114 | `write_file` succeeds exactly when the store accepts the key of every present field |
| Mapper.WriteLeavesOtherKeys | src/lib.rs:84-114 | `write_file` leaves alone every key that belongs to no present field |
| RoundTrip.FieldAfterWrite | src/lib.rs:60-114 | with a sound codec and the written key readable, after a successful write a field's key reads as the field's text when the field was present and as before otherwise |
| RoundTrip.WriteThenRead | src/lib.rs:60-114 | with a sound codec and every written key readable, reading after a successful write gives the written string fields and the previous values of absent ones; tags come back as the split of their join |
| RoundTrip.RecordRoundTrip | src/lib.rs:60-114 | with a sound codec, reading gives back the written record when the written keys can be looked up, absent fields' keys were absent, the tags are non-empty and comma-free, and the write succeeded |
| RoundTrip.EmptyTagsReadBackAsOneEmptyTag | src/lib.rs:60-114 | with a sound codec, a readable tags key and a successful write, writing `Some([])` as the tags and reading back gives `Some([""])` |
| RoundTrip.ReadFieldEncodes | src/lib.rs:60-82 | with a sound codec, a field the read found is stored as exactly the UTF-8 bytes of its text |
| RoundTrip.RewrittenFieldUnchanged | src/lib.rs:60-114 | with a sound codec, writing back a read leaves the same bytes under the key of every field that was read, even when a set fails |
| RoundTrip.ReadThenWrite | src/lib.rs:60-114 | with a sound codec, writing back what was read leaves the attribute map exactly as it was, even when a set fails |
| RoundTrip.ReadEmptyStore | src/lib.rs:60-82 | a store with no attributes reads as the record with every field absent |

## Left out

- The `xattr` crate's system calls and the path are not modelled. The store is one value `Fs`. A `get` or
  `set` fails per key, as the store's `getErrors` and `setErrors` say. A failure that depends on the value
  written, such as a size limit, is not modelled.
- UTF-8 is abstract. `String::from_utf8` and `as_bytes` are the two functions of a `Utf8` codec. The lemmas
  that need them to be inverse assume `Sound`. Validation itself is not modelled.
- Mapper.WriteFile: the source changes the filesystem in place. The method instead takes the store as a value
  and returns the next one, so aliasing of the path by other writers is not captured.
- Concurrent writers to the same path are not modelled. Nothing in the crate is concurrent.
- Rust ownership, borrowing and allocation (`to_string`, `collect`, `ref` bindings) are not modelled.
- The write order follows the code: the nine keys in the order of the struct's fields; `WriteAttempts` is
  stated for that order.
- A lookup error in `get_xattr` is discarded by `.ok()`, just like a missing key. The model keeps this: a key
  listed in `getErrors` reads as an absent field, and the read still succeeds.
