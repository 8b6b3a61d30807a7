# Vapor form-urlencoded parser and static-file path sanitising, in Dafny

This project models two pieces of the Vapor web framework.

**The `application/x-www-form-urlencoded` parser** (`URLEncodedFormParser`) turns a string such as
`a[b][]=1&c=x+y` into a map from field name to a value tree (`.string`, `.array`,
`.dictionary`). The steps are:
- every `+` becomes a space;
- the input is split on `&`, dropping empty pieces;
- each pair is split at its first `=`;
- flags (`a`) and empty values (`a=`) are treated according to the two options `omitEmptyValues` and `omitFlags`;
- keys are parsed into a name and a path of subkeys (`[]` appends, `[k]` names an entry);
- each value is inserted along its path by the recursive `set`.

The model keeps the parser's quirks rather than fixing them:
- **A key without a name:** `[b]` is the name `b]` with an empty path.
- **Array subkeys:** any piece starting with `]` is an array subkey.
- **Arrays of dictionaries:** `a[][x]=1&a[][y]=2` gives two array elements, `{x:1}` and `{x:1,y:2}`, because a longer path is seeded from the array's last element and the result is then appended.
- **Traps:** a key whose percent-decoding fails hits a force-unwrap, modelled as the distinct outcome `Trapped` rather than a thrown error.

**The path handling of `FileMiddleware`** works in four steps:
- `init` makes the public directory end in `/`;
- `respond` removes the leading slashes of the request path in a loop;
- it refuses the request (`403 Forbidden`) when the result holds `../`;
- otherwise it appends the result to the directory.

Files:

- `text.dfy`, module `Text`: the Swift and Foundation string operations the code relies on. These are `split(separator:)` (which drops empty pieces), the maxSplits-1 split that keeps empty pieces, `replacingOccurrences(of: "+", with: " ")`, `hasPrefix`/`hasSuffix` and `contains`.
- `option.dfy`, module `Optional`: the optional value that Swift's `Optional` stands for.
- `percent.dfy`, module `PercentEncoding`: `removingPercentEncoding` as a `%HH` decoder that fails on a malformed escape (section 2.1 of RFC 3986). It also holds a percent-encoder used as the decoder's inverse.
- `form_parser.dfy`, module `URLEncodedForm`: the value tree, key and subkey types, `parseKey`, `set`, and `parse`.
  - `parse` is an imperative method. It is proved equal to the fold `ParseSpec`, and the parser's properties are proved about `ParseSpec`.
- `form_roundtrip.dfy`, module `URLEncodedFormRoundTrip`: a canonical encoder for keyed values. Its round-trip theorem says that parsing the encoding of a sequence of entries gives the map those entries build, inserted in order.
- `file_middleware.dfy`, module `FileMiddlewarePaths`: the class `FileMiddleware`, with its normalised `publicDirectory` and the path-sanitising part of `respond`.

## Model

| member | source | states |
|---|---|---|
| Text.Split | Sources/Vapor/URLEncodedForm/URLEncodedFormParser.swift:16 | the pieces of a split are non-empty and free of the separator; there are none exactly when the input is all separators |
| Text.SplitKeepsText | Sources/Vapor/URLEncodedForm/URLEncodedFormParser.swift:16 | concatenating the pieces gives the input with the separators, and nothing else, removed |
| Text.SplitAtSeparator | Sources/Vapor/URLEncodedForm/URLEncodedFormParser.swift:16 | the pieces of `a` + separator + `b` are the pieces of `a` followed by those of `b`, so doubled, leading and trailing separators give no empty piece |
| Text.SplitWhole | Sources/Vapor/URLEncodedForm/URLEncodedFormParser.swift:16 | a non-empty text without the separator is a single piece |
| Text.SplitJoin | Sources/Vapor/URLEncodedForm/URLEncodedFormParser.swift:82 | splitting pieces joined with the separator gives back exactly those pieces |
| Text.SplitPiecesOmit | Sources/Vapor/URLEncodedForm/URLEncodedFormParser.swift:16 | a character absent from the input is absent from every piece |
| Text.SplitFirst | Sources/Vapor/URLEncodedForm/URLEncodedFormParser.swift:23-27 | one or two tokens; one exactly when there is no `=`; with two, the input is first token + `=` + second token and the first token holds no `=` (so `foo=a=b` gives `foo`, `a=b`) |
| Text.SplitFirstAt | Sources/Vapor/URLEncodedForm/URLEncodedFormParser.swift:23-27 | `k=v`, where `k` has no `=`, splits into exactly `k` and `v` |
| Text.ReplacePlus | Sources/Vapor/URLEncodedForm/URLEncodedFormParser.swift:13 | same length; every `+` becomes a space, every other character is kept, and no `+` remains |
| Text.ReplacePlusWithoutPlus | Sources/Vapor/URLEncodedForm/URLEncodedFormParser.swift:13 | text without `+` is left unchanged |
| Text.ReplacePlusConcat | Sources/Vapor/URLEncodedForm/URLEncodedFormParser.swift:13 | the replacement distributes over concatenation |
| Text.ReplacePlusKeeps | Sources/Vapor/URLEncodedForm/URLEncodedFormParser.swift:13 | a character other than `+` and space occurs in the result exactly when it occurs in the input |
| Text.Contains | Sources/Vapor/Middleware/FileMiddleware.swift:32 | true exactly when the pattern occurs at some index of the text |
| PercentEncoding.Decode | Sources/Vapor/URLEncodedForm/URLEncodedFormParser.swift:41 | a decoded string is never longer than its input |
| PercentEncoding.DecodeSucceedsIff | Sources/Vapor/URLEncodedForm/URLEncodedFormParser.swift:41-43 | decoding succeeds exactly when every `%` is followed by two hexadecimal digits |
| PercentEncoding.DecodeWithoutEscapes | Sources/Vapor/URLEncodedForm/URLEncodedFormParser.swift:99 | text without `%` decodes to itself |
| PercentEncoding.Encode | Sources/Vapor/URLEncodedForm/URLEncodedFormParser.swift:41 | the model's own inverse of the decoding at line 41, not code of the source; it escapes only ASCII characters, and the encoding holds none of `& = + [ ]`, and it is empty exactly when the input is |
| PercentEncoding.DecodeEncode | Sources/Vapor/URLEncodedForm/URLEncodedFormParser.swift:41 | decoding undoes encoding |
| URLEncodedForm.SubKeyOf | Sources/Vapor/URLEncodedForm/URLEncodedFormParser.swift:88-92 | an array piece (starting with `]`) never traps; a dictionary key is decoded from the piece minus its last character and is no longer than that |
| URLEncodedForm.SubKeysOf | Sources/Vapor/URLEncodedForm/URLEncodedFormParser.swift:87-93 | one subkey per piece, in piece order; a trap exactly when some piece fails to decode |
| URLEncodedForm.ParseKey | Sources/Vapor/URLEncodedForm/URLEncodedFormParser.swift:74-100 | `malformedKey` is never thrown; only a key ending in `]` gets a non-empty path |
| URLEncodedForm.ParseKeyPlain | Sources/Vapor/URLEncodedForm/URLEncodedFormParser.swift:94-99 | a key not ending in `]` is its decoded self with an empty path; it traps exactly when it is not well escaped |
| URLEncodedForm.ParseKeyBracketed | Sources/Vapor/URLEncodedForm/URLEncodedFormParser.swift:79-93 | a key ending in `]` has at least one `[`-piece; the name is the first piece decoded and there is one subkey per later piece, in bracket order; it succeeds exactly when every piece decodes |
| URLEncodedForm.SubKeyOfPiece | Sources/Vapor/URLEncodedForm/URLEncodedFormParser.swift:88-92 | a piece starting with `]` is an array subkey; any other piece is a dictionary subkey of itself minus its last character, decoded, and traps exactly when that is not well escaped |
| URLEncodedForm.Seed | Sources/Vapor/URLEncodedForm/URLEncodedFormParser.swift:117-123 | the child a longer path descends into is the existing last array element or dictionary entry, as read by `Lookup`, and otherwise `[]` or `[:]` |
| URLEncodedForm.Set | Sources/Vapor/URLEncodedForm/URLEncodedFormParser.swift:103-145 | an empty path replaces the base; an array subkey appends exactly one element and keeps the others; a dictionary subkey sets its key and keeps the others; a base of the wrong shape becomes a singleton; with one subkey the new element or entry is the data |
| URLEncodedForm.SetThenLookup | Sources/Vapor/URLEncodedForm/URLEncodedFormParser.swift:103-145 | the data that `set` stores is found again along the same path |
| URLEncodedForm.SetSeedsChild | Sources/Vapor/URLEncodedForm/URLEncodedFormParser.swift:115-124 | for longer paths, the child is `set` from the last array element (else `[]`) or from the existing entry (else `[:]`) |
| URLEncodedForm.AppendCopiesLastElement | Sources/Vapor/URLEncodedForm/URLEncodedFormParser.swift:117-136 | `[][k]` on an array ending in a dictionary appends a copy of that dictionary with `k` set |
| URLEncodedForm.Store | Sources/Vapor/URLEncodedForm/URLEncodedFormParser.swift:59-67 | only the entry of the key's name changes; an empty path replaces the field (last write wins); the stored data is found along the key's path; a non-empty path is `set` into the field's current tree, or into `[:]` for a new field (lines 60-63) |
| URLEncodedForm.StoreMergesEntry | Sources/Vapor/URLEncodedForm/URLEncodedFormParser.swift:137-140 | `a[c]=2` on a dictionary field adds `c` and keeps every other key (`a[b]=1&a[c]=2` gives `{a:{b:1,c:2}}`) |
| URLEncodedForm.Pairs | Sources/Vapor/URLEncodedForm/URLEncodedFormParser.swift:13-16 | the pairs are non-empty and hold no `&`, and together they hold the `+`-replaced input minus its `&`s, in order |
| URLEncodedForm.ParsePair | Sources/Vapor/URLEncodedForm/URLEncodedFormParser.swift:23-57 | a pair is skipped only under `omitEmptyValues` or `omitFlags`; every entry carries a string; the only error is `percentDecoding` |
| URLEncodedForm.FoldSteps | Sources/Vapor/URLEncodedForm/URLEncodedFormParser.swift:16-68 | the loop over the pair outcomes never removes a field |
| URLEncodedForm.ParseSpec | Sources/Vapor/URLEncodedForm/URLEncodedFormParser.swift:12-71 | the fold over the pairs from the empty map, which throws nothing but `percentDecoding` |
| URLEncodedForm.Parse | Sources/Vapor/URLEncodedForm/URLEncodedFormParser.swift:12-71 | the loop that updates `decoded` in place ends with the outcome of the fold `ParseSpec` over the pairs |
| URLEncodedForm.KeyValuePair | Sources/Vapor/URLEncodedForm/URLEncodedFormParser.swift:37-45 | `k=v` is skipped before any decoding when `v` is empty under `omitEmptyValues`; a badly escaped `v` throws `percentDecoding` before the key is parsed; otherwise it gives the parsed key with the decoded value, or traps on a bad key |
| URLEncodedForm.FlagPair | Sources/Vapor/URLEncodedForm/URLEncodedFormParser.swift:46-51 | a pair without `=` is skipped under `omitFlags`, and otherwise gives the string `"true"` (or traps on a bad key) |
| URLEncodedForm.FoldSucceedsIff | Sources/Vapor/URLEncodedForm/URLEncodedFormParser.swift:16-68 | the fold succeeds exactly when no step fails |
| URLEncodedForm.FoldFailsAtFirstFailure | Sources/Vapor/URLEncodedForm/URLEncodedFormParser.swift:16-68 | a failing fold fails as its first failing step does |
| URLEncodedForm.ParseSucceedsIff | Sources/Vapor/URLEncodedForm/URLEncodedFormParser.swift:12-71 | `parse` returns a map exactly when no pair fails, so a single bad pair leaves no partial map |
| URLEncodedForm.ParseFailsAtFirstFailure | Sources/Vapor/URLEncodedForm/URLEncodedFormParser.swift:12-71 | a failing `parse` reports the failure of its first failing pair |
| URLEncodedForm.PairThrowsOnlyPercentDecoding | Sources/Vapor/URLEncodedForm/URLEncodedFormParser.swift:23-57 | a pair throws only for a two-token pair whose value is badly escaped, and then with `percentDecoding` naming that value; `malformedData` is unreachable |
| URLEncodedForm.FoldThrowsStepError | Sources/Vapor/URLEncodedForm/URLEncodedFormParser.swift:16-68 | an error thrown by the fold is the error of one of its steps |
| URLEncodedForm.ParseThrowsForBadValue | Sources/Vapor/URLEncodedForm/URLEncodedFormParser.swift:12-71 | an error `parse` throws is the `percentDecoding` error naming the badly escaped value of one of the input's pairs |
| URLEncodedForm.PairsOfInput | Sources/Vapor/URLEncodedForm/URLEncodedFormParser.swift:13-16 | no pair holds a `+` |
| URLEncodedForm.ParseKeyOmits | Sources/Vapor/URLEncodedForm/URLEncodedFormParser.swift:74-100 | a key without `%` parses, and a character absent from it is absent from its name and subkeys |
| URLEncodedForm.NoLiteralPlus | Sources/Vapor/URLEncodedForm/URLEncodedFormParser.swift:13 | with no percent-escapes in the input, no key name, subkey or value holds a `+` |
| URLEncodedForm.ArrayOfDictionariesQuirk | Sources/Vapor/URLEncodedForm/URLEncodedFormParser.swift:117-136 | storing `a[][x]=1` then `a[][y]=2` gives `a = [{x:1}, {x:1, y:2}]` |
| URLEncodedForm.KeyWithoutName | Sources/Vapor/URLEncodedForm/URLEncodedFormParser.swift:82-86 | the key `[b]` has the name `b]` and an empty path |
| URLEncodedForm.OnePlainPair | Sources/Vapor/URLEncodedForm/URLEncodedFormParser.swift:12-71 | a single `k=v` with no escapes or brackets gives the one field `k` = `v`, with each `+` read as a space (`a+b=c+d` gives `a b` = `c d`) |
| URLEncodedForm.OneBadValue | Sources/Vapor/URLEncodedForm/URLEncodedFormParser.swift:41-43 | a single pair whose value is badly escaped fails as a whole with `percentDecoding` (`a=%`) |
| URLEncodedFormRoundTrip.SubKeysOfPieces | Sources/Vapor/URLEncodedForm/URLEncodedFormParser.swift:87-93 | the written pieces of a path read back as that path |
| URLEncodedFormRoundTrip.ParseEncodedKey | Sources/Vapor/URLEncodedForm/URLEncodedFormParser.swift:74-100 | an encoded key (with a name whenever it has a path, and no empty dictionary subkey) parses back to itself |
| URLEncodedFormRoundTrip.ParseEncodedPair | Sources/Vapor/URLEncodedForm/URLEncodedFormParser.swift:23-51 | an encoded pair yields its key with its string value |
| URLEncodedFormRoundTrip.ParseEncodedForm | Sources/Vapor/URLEncodedForm/URLEncodedFormParser.swift:12-71 | parsing an encoded sequence of entries succeeds with the map those entries build, inserted in order |
| URLEncodedFormRoundTrip.ArrayOfDictionariesExample | Sources/Vapor/URLEncodedForm/URLEncodedFormParser.swift:115-136 | `parse("a[][x]=1&a[][y]=2")` gives `a = [{x:1}, {x:1, y:2}]` |
| FileMiddlewarePaths.NormalizeDirectory | Sources/Vapor/Middleware/FileMiddleware.swift:17 | the result ends in `/`; it is the input when that already did, otherwise the input plus exactly one `/` |
| FileMiddlewarePaths.NormalizeIdempotent | Sources/Vapor/Middleware/FileMiddleware.swift:17 | normalising twice is normalising once |
| FileMiddlewarePaths.StripLeadingSlashes | Sources/Vapor/Middleware/FileMiddleware.swift:27-29 | no leading `/` remains; the result is a suffix of the path and everything removed is `/` |
| FileMiddlewarePaths.StripIdempotent | Sources/Vapor/Middleware/FileMiddleware.swift:27-29 | stripping again changes nothing |
| FileMiddlewarePaths.FileMiddleware.constructor | Sources/Vapor/Middleware/FileMiddleware.swift:16-19 | the stored directory is the normalised one, so it ends in `/` |
| FileMiddlewarePaths.FileMiddleware.Respond | Sources/Vapor/Middleware/FileMiddleware.swift:22-37 | forbidden exactly when the stripped path holds `../`; otherwise the file path is the directory followed by the stripped path, which starts with no `/` and holds no `../` |

## Left out

- PercentEncoding.Decode: Foundation's `removingPercentEncoding` is modelled as a `%HH` decoder in which each escape gives the character of that code. It accepts escapes that are not valid UTF-8 (such as a lone `%E9`), where Foundation returns nil. It also does not join multi-octet sequences. The encoder escapes only ASCII, so the round-trip theorems never rely on this difference.
- Swift `Character`s (grapheme clusters) are modelled as single `char`s. Unicode normalisation and comparison are not modelled.
- The guard on `token.first` (lines 29–34) is not modelled because it cannot fail: the split that keeps empty pieces always yields at least one token (`Text.SplitFirst`).
- The `malformedData` branch is kept but can never be taken (`URLEncodedForm.PairThrowsOnlyPercentDecoding`). The same holds for the `malformedKey` branch (`URLEncodedForm.ParseKey`).
- A trap (a force-unwrap that fails) is an outcome of its own. What the process does after a trap is not modelled.
- `set` mutates an `inout` enum, which is a value type, so it is modelled as a function that returns the new tree. Nothing can be aliased.
- The commented-out `Data` helpers (URLEncodedFormParser.swift lines 162–189) are dead code.
- `FileMiddleware.respond` after line 37 is left out: `FileManager.fileExists`, `fileio.streamFile`, the fallback to the next responder and the `EventLoopFuture` plumbing. These are file-system and asynchronous I/O. `Respond` returns either `Forbidden` or the file path to check.
- The `FileIO` handle that `init` stores is not modelled. The request is reduced to its URL path.
- The rest of the repository is not part of this model: application lifecycle, HTTP clients, sessions, `Abort`, authentication tests.
- URLEncodedFormRoundTrip.ParseEncodedForm: stated only for keys that have a name whenever they have a path, and that have no empty dictionary subkey. The text form cannot carry other keys (`[]` reads back as an append). Under `omitEmptyValues` it also needs non-empty values.
