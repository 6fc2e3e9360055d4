# Version bumper, modelled in Dafny

`index.js` is a CI helper for publishing an npm package on every run. It
reads a bearer token and a registry URL from the environment, the command
line and `.npmrc`. It then asks the registry for the package's published
`latest` version and compares it with the `version` in `package.json`. Both
versions are turned into integers by `semverToNumber`. If the local version
encodes strictly higher, the run keeps it. Otherwise the result is the
published version with its patch component raised by one. The model covers
three parts:

- `VersionEncoder` (`encoder.dfy`) models `semverToNumber` twice: as the
  loop the source writes (`SemverToNumber`) and as a pad-right
  specification (`Encode`). It proves the two equal. It also proves what
  the number means: with equal component widths the encoding orders
  versions exactly like (major, minor, patch). Without equal widths the
  order breaks, and concrete pairs show where.
- `Decision` (`decision.dfy`) models the decision block as
  `Decide(local, latest) -> Outcome`, with the outcomes `Abort`,
  `UseLocal` and `Bump`, and the whole run as `Run`. Its abort paths are an
  unreadable manifest, a failed request and a missing `latest`. The exit
  code is 1 exactly on those paths.
- `Config` (`config.dfy`) models how the token and the registry are
  resolved. Both forward scans are loop methods, proved equal to a
  "last matching entry" specification. The registry fixups are a method
  proved equal to a normalisation function.

`Strings` (`strings.dfy`) models the JavaScript string built-ins on the
inputs the program gives them: `split`, `join`, `trim`, `parseInt` of a
digit string, and number-to-string. JavaScript truthiness is modelled too:
`undefined` and `""` are both false. `Wrappers` (`wrappers.dfy`) holds the
`Option` type.

A local "2.0.0" against a published "1.9.9" is not bumped to "1.9.10": the
code keeps the local version, because 12000000 > 11900900
(`Decision.HigherMajorKept`). The published patch still wins whenever the
encoding says so, even though the encoding does not follow semantic-version
order. `WiderLocalMinorDiscarded` shows this: local 1.10.0 against published
1.9.0 is bumped to 1.9.1.

## Model

| member | source | states |
|---|---|---|
| Strings.Value | index.js:143 | `parseInt(s, 10)` of a string of n digits is a natural number below 10^n |
| Strings.ValueAppend | index.js:142-143 | reading a concatenation equals reading the first part, shifted left by the width of the second, plus the reading of the second |
| Strings.NatToString | index.js:82-83 | a number becomes a non-empty digit string that reads back as the number, with no leading zero except for "0" itself |
| Strings.Split | index.js:132 | `split` on one character always gives at least one part, and no part contains the separator |
| Strings.SplitJoin | index.js:81-83 | splitting the join of parts that hold no separator gives the parts back |
| Strings.JoinSplit | index.js:81-83 | joining the parts of a split gives the original string back |
| Strings.TakeUntil | index.js:27 | the result is a prefix of the string, the separator starts at none of its positions, and either it is the whole string or the separator starts right after it |
| Strings.AfterPrefix | index.js:27 | `s.split(sep)[1]` of a string starting with sep: sep followed by the result is a prefix of s, sep starts at no position inside the result, and the result ends at the end of s or where sep next starts |
| Strings.TrimStart | index.js:36 | the result is a suffix of the input, only whitespace was dropped, and it does not start with whitespace |
| Strings.TrimEnd | index.js:36 | the result is a prefix of the input, only whitespace was dropped, and it does not end with whitespace |
| Strings.TrimStrips | index.js:36 | `trim` keeps a contiguous slice of the input, drops only whitespace before and after it, and the slice neither starts nor ends with whitespace |
| VersionEncoder.PadRight | index.js:137-141 | padding gives length max(len, width), keeps the original text as its prefix, and adds only '0' characters |
| VersionEncoder.PadRightValue | index.js:140-143 | a padded digit string reads as the original multiplied by 10 for each added zero |
| VersionEncoder.TrailingZerosInvisible | index.js:139-140 | zeros a component already ends with, up to the pad width, make no difference to the padded text |
| VersionEncoder.EncodedDigits | index.js:133-142 | the concatenated text is all digits, at least eight long, and starts with the marker '1' |
| VersionEncoder.SemverToNumber | index.js:131-144 | the padding loop returns exactly the pad-right encoding of the first three components |
| VersionEncoder.MarkedMajorValue | index.js:133-138 | the marked major reads as 10^len + major, or as 10 when the major is empty |
| VersionEncoder.EncodePartsArithmetic | index.js:142-143 | the encoding is the marked major, then the minor, then the patch, each shifted by the padded widths after it |
| VersionEncoder.EncodeLeadingMarker | index.js:133-143 | with d digits, the encoding lies in [10^(d-1), 2·10^(d-1)), so the marker digit is the leading 1 |
| VersionEncoder.EncodeFirstThree | index.js:132-135 | components after the third do not affect the encoding |
| VersionEncoder.PaddedOrder | index.js:139-140 | two components of equal width compare, after padding, exactly as their numbers do |
| VersionEncoder.MarkedMajorOrder | index.js:133-138 | two majors of equal width compare, after marking and padding, exactly as their numbers do |
| VersionEncoder.EncodeOrdersLikeTuples | index.js:131-144 | when component widths match pairwise, one encoding is below another iff its (major, minor, patch) is lexicographically below, and two encodings are equal iff the triples are |
| VersionEncoder.EncodeDotted | index.js:132-135 | "major.minor.patch" splits into exactly those three components and encodes as them |
| VersionEncoder.EncodeOfComponents | index.js:137-143 | with a non-empty major and a minor and patch of at most three digits, the encoding is (10^len(major) + major)·10^6 + minor·10^(3-len)·10^3 + patch·10^(3-len) |
| VersionEncoder.EncodeOfVersion | index.js:131-144 | the same closed formula for a written-out version, whose numeric triple matches its components |
| VersionEncoder.MinorPaddingCollides | index.js:139 | "1.1.0" and "1.10.0" both encode as 11100000 |
| VersionEncoder.WiderMinorEncodesLower | index.js:139 | "1.10.0" encodes below "1.2.0", although its minor is the larger number |
| Decision.Bumped | index.js:81-83 | the bumped version is bumpable, has the same number of components, leaves every component other than the patch unchanged, and has as its patch the plain decimal text of parseInt(patch) + 1 |
| Decision.Decide | index.js:67-83 | no truthy `latest` ⇔ abort with NoLatestVersion; otherwise bump ⇔ published encoding ≥ local encoding, and a lower published encoding gives UseLocal(local); keeping carries the local version and a bump carries Bumped(latest); a readable patch is required only when the run bumps |
| Decision.Run | index.js:51-92 | an unreadable manifest aborts, a failed request aborts, otherwise the decision block decides; the exit code is 1 on each abort and 0 iff the manifest was read, the request succeeded and `latest` is truthy |
| Decision.ManifestFailureIgnoresRegistry | index.js:51-57 | with an unreadable manifest, every registry answer leads to the same abort |
| Decision.BumpIgnoresLocal | index.js:76-83 | any two local versions that both lead to a bump lead to the same bumped version |
| Decision.EqualVersionsBump | index.js:76 | a local version equal to the published one is always bumped |
| Decision.DecideUnderSameWidths | index.js:74-80 | with matching component widths, the local version is kept iff its (major, minor, patch) is strictly above the published one |
| Decision.BumpedDotted | index.js:81-83 | bumping "major.minor.patch" gives "major.minor." followed by the decimal form of patch + 1 |
| Decision.ScenarioLocalAhead | index.js:6-7 | local 1.1.0 against published 1.0.2 keeps 1.1.0 |
| Decision.ScenarioEqual | index.js:76-83 | local and published 1.0.2 bump to 1.0.3 |
| Decision.ScenarioPublishedAhead | index.js:8 | local 1.0.0 against published 1.2.5 bumps to 1.2.6 |
| Decision.ScenarioNoLatest | index.js:67-72 | a registry document without `latest` aborts with exit code 1 |
| Decision.HigherMajorKept | index.js:74-80 | local 2.0.0 against published 1.9.9 keeps 2.0.0 |
| Decision.KeptDespiteEmptyPatch | index.js:74-79 | a published "1.2." with an empty patch is encodable but not bumpable, and against local 2.0.0 the local version is kept |
| Decision.WiderLocalMinorDiscarded | index.js:74-83 | local 1.10.0 against published 1.9.0 bumps to 1.9.1 |
| Decision.BumpCanEncodeLower | index.js:81-83 | 1.0.9 bumps to 1.0.10, which encodes below 1.0.9 |
| Config.LastValueMeaning | index.js:25-41 | a last-wins scan finds nothing iff no entry starts with the key; otherwise its value comes from the last entry that does |
| Config.LastValueAt | index.js:25-41 | when entry k is the last that starts with the key, the scan's value is `entry.split(key)[1]` of entry k |
| Config.ResolveToken | index.js:22-30 | the token loop yields a truthy NPM_TOKEN unchanged, else the last `--token=` value, else NPM_TOKEN as it was |
| Config.TokenChoice | index.js:22-30 | a truthy NPM_TOKEN wins; otherwise the last `--token=` argument decides; with no such argument NPM_TOKEN stays |
| Config.ScanLine | index.js:35-41 | a line whose trimmed text starts with `registry=` sets the value after the key; any other line, including an empty one, changes nothing |
| Config.ScanNpmrc | index.js:33-41 | the `.npmrc` loop leaves the value of the last trimmed `registry=` line, or the previous setting when there is none |
| Config.ReadRegistrySetting | index.js:23-44 | a truthy NPM_REGISTRY is kept; otherwise the `.npmrc` scan decides when the file was read |
| Config.Normalize | index.js:46-50 | the fixup result is non-empty and does not start with '/'; `https:` is prepended to a leading '/' and exactly one trailing '/' is removed |
| Config.ApplyFixups | index.js:46-50 | the two in-place fixups compute Normalize of the chosen registry |
| Config.ResolveRegistry | index.js:22-50 | the registry steps together give RegistryOf |
| Config.NormalizeDefault | index.js:45-50 | the public registry URL comes through the fixups unchanged |
| Config.RegistryEnvWins | index.js:23-31 | a truthy NPM_REGISTRY becomes the registry after the fixups, whatever `.npmrc` holds |
| Config.RegistryFromNpmrc | index.js:31-50 | otherwise the last trimmed `registry=` line with a non-empty value gives the registry, after the fixups |
| Config.RegistryDefaults | index.js:45 | with no truthy NPM_REGISTRY and no `registry=` line, the public registry is used |
| Config.RegistryEmptyValueDefaults | index.js:39-45 | with no truthy NPM_REGISTRY, a last `registry=` line with an empty value leaves the setting falsy, and the public registry is used |
| Config.NormalizeExamples | index.js:46-50 | only one of two trailing slashes is removed; "//host/" becomes "https://host"; "/" becomes "https:" |

## Left out

- The HTTPS request, its headers and JSON parsing (`req`, index.js:99-123) are not modelled. The request's result is an input (`Response`): a transport or registry error, or a document with or without `dist-tags.latest`.
- The request URL built from the registry and the package name (index.js:61) is not modelled, and neither is the Authorization header built from the token (index.js:102-104). The token and registry are resolved, but nothing in the model consumes them.
- Reading `package.json` (index.js:52) and `.npmrc` (index.js:33) is not modelled. The file contents are inputs, and `None` stands for a read that threw.
- Console logging and `process.exit` are not modelled. The exit status is the `ExitCode` of the outcome.
- `Run` and `Decide` take a `dist-tags` object that is missing as the same case as a missing `latest` (`NoLatestVersion`). In the source, a document without `dist-tags` throws a TypeError outside the try blocks.
- `VersionEncoder.SemverToNumber` reads the digits as an unbounded integer. JavaScript's `parseInt` returns a double, which loses precision above 2^53.
- `VersionEncoder.SemverToNumber` requires three digit-only components (an empty component is allowed and pads to zeros). The source would throw on fewer than three components, at line 139 or 140. What `parseInt` does with other text (reading a numeric prefix, or NaN and its comparisons) is not modelled.
- `Decision.Bumped` computes parseInt(patch) + 1 on an unbounded integer and renders it in plain decimal. In the source this is double arithmetic: a patch above 2^53 rounds, and a result of 10^21 or more is rendered by `join` as exponent notation ("1e+21").
- `Decision.Bumped` requires a non-empty patch. `parseInt("")` is NaN, so in the source the bumped version becomes "M.m.NaN", which is logged at line 84, and the run still exits 0 at line 88.
- The assignment to `packageInfo.version` (index.js:85) is not modelled, and neither is the commented-out write of `package.json` (index.js:87). Neither has any effect in the source, so the bump only decides the outcome.
- `Strings.Trim` strips ASCII whitespace only. JavaScript's `trim` also strips other Unicode whitespace and line terminators.
