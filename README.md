# Versioning: version record and version store

This project models the core of a Gradle versioning plugin. The core keeps one
semantic version (major.minor.patch plus a release-candidate counter) in a
`version.properties` file and applies increment and reset transitions to it.
There are two parts:

- `Version` (`version.dfy`, module `Versions`): an immutable record with four
  int fields. It has five pure transitions (`bumpMajor`, `bumpMinor`,
  `bumpPatch`, `bumpRC`, `resetRC`) and the rendering `asString`.
  The contracts state the cascade rule of every bump: the bumped field goes up
  by one, more significant fields are kept, less significant fields become 0.
  They also state that each bump moves the version strictly forward, which
  holds within the Java int range. The
  rendering shows an `-RC` suffix exactly when the release candidate is
  positive, and it is injective when the release candidate is not negative.
- `VersionManager` (`version_manager.dfy`, module `VersionStore`): a class
  holding the file it is bound to (`const file`) and the in-memory `current`
  version.
  - `Open` models the constructor together with `load`. It reads and decodes
    an existing file. For a missing file it first writes the all-`"0"`
    default.
  - Each bump method replaces `current` with the matching `Version`
    transition. It then overwrites the whole file with the four keys.
  - `Decode` models the four `parseInt` calls. A key that is absent reads as
    `"0"`. The value is trimmed and parsed as a Java int, and a value that is
    not one is an error naming the key. `Encode` models `save`.
  - `DecodeEncode` proves that decoding what `save` writes gives back the saved
    version. Every successful bump therefore leaves memory and disk in
    agreement (`Synced`).
- `text.dfy` (module `Text`) models the three Java library calls the store uses:
  `String.valueOf(int)`, `Integer.parseInt` and `String.trim`. It proves
  `ParseInt(IntToString(n)) == Some(n)` for every n within the Java int range, and that `Trim` strips
  exactly the padding around a word.

The file is modelled at key-value level by the class `VersionFile`: whether it
exists, its `map<string, string>` of properties, and two flags that decide
whether reading and writing it fail. These flags stand in for the operating
system. A failed read is the `ReadFailed` error and a failed write is the
`WriteFailed` error; both are the `IllegalStateException`s of the source. A
value that is not an int is `InvalidInteger(key, value)`, the source's
`IllegalArgumentException`.

Two behaviours of the code are kept as written:

- The code loads negative and `+`-signed values (`Integer.parseInt` accepts a
  sign), so a loaded version may have negative fields. No non-negativity check
  is modelled.
- When a write fails during a bump, the code has already replaced `current`, so
  the bump methods keep the advanced value in memory while the file is left as
  it was. Memory and disk then disagree. The code does not roll back.

## Model

| member | source | states |
|---|---|---|
| `Versions.Version.AsString` | src/main/java/br/dev/rplus/versioning/Version.java:24-28 | the rendering carries an RC marker exactly when releaseCandidate > 0 |
| `Versions.AsStringInjective` | src/main/java/br/dev/rplus/versioning/Version.java:24-28 | with release candidates >= 0, two versions that render the same are equal: `M.m.p` and `M.m.p-RCn` lose nothing |
| `Versions.Version.BumpMajor` | src/main/java/br/dev/rplus/versioning/Version.java:35-37 | the result follows the cascade rule at major (major+1, everything else 0) and comes strictly after the input |
| `Versions.Version.BumpMinor` | src/main/java/br/dev/rplus/versioning/Version.java:44-46 | cascade rule at minor: major kept, minor+1, patch and RC 0; strictly later |
| `Versions.Version.BumpPatch` | src/main/java/br/dev/rplus/versioning/Version.java:53-55 | cascade rule at patch: major and minor kept, patch+1, RC 0; strictly later |
| `Versions.Version.BumpRC` | src/main/java/br/dev/rplus/versioning/Version.java:62-64 | cascade rule at RC: only releaseCandidate changes, to releaseCandidate+1; strictly later |
| `Versions.Version.ResetRC` | src/main/java/br/dev/rplus/versioning/Version.java:71-73 | major, minor and patch are kept, the release candidate becomes 0, the result renders as a final release, and it never comes after the input when RC >= 0 |
| `Versions.ResetRCIdempotent` | src/main/java/br/dev/rplus/versioning/Version.java:71-73 | resetRC(resetRC(v)) == resetRC(v) |
| `Versions.BumpRCNotIdempotent` | src/main/java/br/dev/rplus/versioning/Version.java:62-64 | two RC bumps add 2, so bumpRC is not idempotent |
| `Versions.TransitionsRendering` | src/main/java/br/dev/rplus/versioning/Version.java:24-73 | from RC >= 0, the base bumps and resetRC render without `-RC` and bumpRC renders with it |
| `Versions.BumpIsDetermined` | src/main/java/br/dev/rplus/versioning/Version.java:35-64 | the cascade rule fixes the result of a bump uniquely |
| `Versions.BumpSequenceFromZero` | src/main/java/br/dev/rplus/versioning/Version.java:35-64 | 0.0.0 bumped major, minor, patch, RC gives (1,1,1,1), rendered `1.1.1-RC1` |
| `Versions.ReleaseAfterThreeCandidates` | src/main/java/br/dev/rplus/versioning/Version.java:62-73 | three RC bumps from 0.0.0 give RC 3, and resetRC then renders `0.0.0` |
| `Text.IntToString` | src/main/java/dev/rafandoo/versioning/VersionManager.java:127-130 | `String.valueOf(int)`: non-empty text that starts with a minus sign exactly when the int is negative |
| `Text.Trim` | src/main/java/dev/rafandoo/versioning/VersionManager.java:149 | `String.trim`: never longer than its input, and a string with no padding at either end is returned unchanged |
| `Text.NatToString` | src/main/java/dev/rafandoo/versioning/VersionManager.java:127-130 | decimal text of a natural number: non-empty, all digits, no leading zero, and its digit value is the number |
| `Text.IntToStringInjective` | src/main/java/dev/rafandoo/versioning/VersionManager.java:127-130 | `String.valueOf` never writes two ints as the same text |
| `Text.ParseInt` | src/main/java/dev/rafandoo/versioning/VersionManager.java:151 | `Integer.parseInt` only ever yields a value in the Java int range |
| `Text.ParseIntRejectsNonDigit` | src/main/java/dev/rafandoo/versioning/VersionManager.java:150-154 | a non-digit anywhere but as a leading sign makes the parse fail |
| `Text.ParseIntOfIntToString` | src/main/java/dev/rafandoo/versioning/VersionManager.java:148-151 | parsing what `String.valueOf` wrote gives the int back, for every Java int |
| `Text.TrimPadded` | src/main/java/dev/rafandoo/versioning/VersionManager.java:149 | `trim` removes exactly the characters <= space around a word that has none at its ends |
| `Text.TrimIntToString` | src/main/java/dev/rafandoo/versioning/VersionManager.java:149 | trimming the text of an int leaves it unchanged |
| `VersionStore.GetProperty` | src/main/java/dev/rafandoo/versioning/VersionManager.java:149 | `getProperty(key, "0")`: the stored value when the key is present, the default otherwise |
| `VersionStore.VersionFile.Read` | src/main/java/dev/rafandoo/versioning/VersionManager.java:100-101 | the file's properties when it exists and can be read, otherwise a failure |
| `VersionStore.VersionFile.Write` | src/main/java/dev/rafandoo/versioning/VersionManager.java:138-139 | a successful write makes the file exist and hold exactly the given properties; a failed one leaves it as it was |
| `VersionStore.ParseField` | src/main/java/dev/rafandoo/versioning/VersionManager.java:148-155 | a parsed field fits in an int; a failure is InvalidInteger naming that key |
| `VersionStore.MissingKeyReadsAsZero` | src/main/java/dev/rafandoo/versioning/VersionManager.java:149 | an absent key reads as 0 |
| `VersionStore.PaddedValueReadsAsNumber` | src/main/java/dev/rafandoo/versioning/VersionManager.java:149-151 | whitespace around a number is trimmed before parsing |
| `VersionStore.NonNumericMajorRejected` | src/main/java/dev/rafandoo/versioning/VersionManager.java:150-154 | `major=abc` is the InvalidInteger error for major, not a default 0 |
| `VersionStore.Decode` | src/main/java/dev/rafandoo/versioning/VersionManager.java:114-119 | decoding succeeds exactly when all four fields parse, gives the parsed fields (all in int range), and otherwise names one of the four keys |
| `VersionStore.DecodeReportsFirstInvalidKey` | src/main/java/dev/rafandoo/versioning/VersionManager.java:114-119 | the error reported is that of the first key, in the order major, minor, patch, releaseCandidate, that does not parse |
| `VersionStore.EmptyFileReadsAsZero` | src/main/java/dev/rafandoo/versioning/VersionManager.java:148-149 | a file with none of the keys reads as 0.0.0 |
| `VersionStore.Encode` | src/main/java/dev/rafandoo/versioning/VersionManager.java:125-131 | the saved properties hold exactly the four keys |
| `VersionStore.DecodeEncode` | src/main/java/dev/rafandoo/versioning/VersionManager.java:125-132 | round trip: decoding what save writes gives the saved version |
| `VersionStore.DefaultIsZero` | src/main/java/dev/rafandoo/versioning/VersionManager.java:105-110 | the default content is the encoding of 0.0.0 and decodes to it |
| `VersionStore.SaveProps` | src/main/java/dev/rafandoo/versioning/VersionManager.java:137-143 | on success the file exists and holds exactly the given properties; otherwise WriteFailed and the file is as it was |
| `VersionStore.Load` | src/main/java/dev/rafandoo/versioning/VersionManager.java:97-120 | an existing file is not written, and is ReadFailed or its decoding; a missing file gets the all-"0" default and reads as 0.0.0, or WriteFailed; a loaded version is what the file decodes to |
| `VersionStore.VersionManager.Open` | src/main/java/dev/rafandoo/versioning/VersionManager.java:41-44 | the store is made exactly when loading succeeds, holds the loaded version and starts in sync with its file |
| `VersionStore.VersionManager.GetCurrent` | src/main/java/dev/rafandoo/versioning/VersionManager.java:49-51 | returns the in-memory version and modifies nothing |
| `VersionStore.VersionManager.Save` | src/main/java/dev/rafandoo/versioning/VersionManager.java:125-132 | on success the file holds the encoding of current and decodes back to it; on failure WriteFailed and the file is as it was |
| `VersionStore.VersionManager.BumpMajor` | src/main/java/dev/rafandoo/versioning/VersionManager.java:56-59 | current becomes old current's bumpMajor even if the write fails; on success memory and disk agree |
| `VersionStore.VersionManager.BumpMinor` | src/main/java/dev/rafandoo/versioning/VersionManager.java:64-67 | current becomes old current's bumpMinor; on success memory and disk agree |
| `VersionStore.VersionManager.BumpPatch` | src/main/java/dev/rafandoo/versioning/VersionManager.java:72-75 | current becomes old current's bumpPatch; on success memory and disk agree |
| `VersionStore.VersionManager.BumpRC` | src/main/java/dev/rafandoo/versioning/VersionManager.java:80-83 | current becomes old current's bumpRC; on success memory and disk agree |
| `VersionStore.VersionManager.ResetRC` | src/main/java/dev/rafandoo/versioning/VersionManager.java:88-91 | current becomes old current's resetRC; on success memory and disk agree |
| `VersionStore.Reopen` | src/main/java/dev/rafandoo/versioning/VersionManager.java:97-120 | a store opened on a file left in sync holds the same version |
| `VersionStore.RestartAfterBumpPatch` | src/main/java/dev/rafandoo/versioning/VersionManager.java:72-75 | after a successful patch bump, reopening the file gives the bumped version |
| `VersionStore.OpenNew` | src/main/java/dev/rafandoo/versioning/VersionManager.java:105-119 | opening a missing, writable file gives a store holding 0.0.0 |
| `VersionStore.ReleaseScenario` | src/test/java/dev/rafandoo/VersioningPluginTest.java:125-142 | three RC bumps from a new store give RC 3; the release then gives 0.0.0 in memory and `releaseCandidate` = "0" on disk |

## Left out

- The build-tool glue is not part of this model: `VersioningTasks.java`, `VersioningPlugin.java`, and `VersioningExtension.java`, whose `getName` is `getCurrent().asString()`. It contains no version logic.
- The `java.util.Properties` text format (escapes, the comment header, the timestamp line) is not modelled. The file is its key-value map.
- Real file I/O is not modelled. Existence, read failure and write failure are fields of `VersionFile`.
- VersionStore.SaveProps: a failed write is modelled as leaving the file as it was. A write that truncates or partly writes the file is not modelled.
- Versions.Version.BumpMajor, Versions.Version.BumpMinor, Versions.Version.BumpPatch and Versions.Version.BumpRC compute `field + 1` on unbounded ints. Java wraps to a negative int at 2^31-1, where the version would move backwards. The store methods below require the field to be below that bound.
- VersionStore.VersionManager.BumpMajor: requires the incremented field to be below 2^31-1. The Java `+ 1` would wrap to a negative int there, and that wrap-around is not modelled.
- VersionStore.VersionManager.BumpMinor: requires the incremented field to be below 2^31-1. The Java `+ 1` would wrap to a negative int there, and that wrap-around is not modelled.
- VersionStore.VersionManager.BumpPatch: requires the incremented field to be below 2^31-1. The Java `+ 1` would wrap to a negative int there, and that wrap-around is not modelled.
- VersionStore.VersionManager.BumpRC: requires the incremented field to be below 2^31-1. The Java `+ 1` would wrap to a negative int there, and that wrap-around is not modelled.
- Text.ParseInt: only ASCII digits are accepted. `Integer.parseInt` also accepts other Unicode decimal digits.
- Versions.Version.AsString: `%d` is rendered with ASCII digits, as in a locale such as English. Locale-specific digits are not modelled.
- Concurrent access to the file by other processes is not modelled. The store is sequential.
