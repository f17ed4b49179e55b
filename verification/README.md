# picture2words: the reply parser and the vocabulary record, in Dafny

picture2words photographs a scene and sends the photo to a chat-completion
endpoint. The system instruction asks the model to list the objects it sees,
one per line, as `word|/phonetic/|中文翻译`. The app then turns the reply into a
list of `WordInfo` records for a study list.

This project models the logic that runs after the HTTP response arrives.

- `AIService.ExtractContent` walks the decoded JSON down to
  `choices[0].message.content`. It fails with `ParseError` code -3 when the
  top level is not a dictionary, and with code -4 for every other shape fault.
- `AIService.ParseWords` splits the content on `\n`. Each line is split on `|`.
  A line is kept only when it gives exactly three pieces. The pieces are
  trimmed of Foundation's `whitespacesAndNewlines` and become a `WordInfo`.
- `AIService.HandleResponse` chains the two steps. An error thrown by the JSON
  decoder is passed on unchanged.
- `WordModel` holds `WordInfo`. Its `==` and its `hash(into:)` look only at
  `word`, `phonetic` and `chineseMeaning`, never at the `id`.

Modules:

- `Wrappers` holds `Option`, `Result`, and Swift's `compactMap` over optionals
  (`CompactMap`), with its order lemma.
- `Text` holds Foundation's string operations on `seq<char>`: `Split` for
  `components(separatedBy:)`, `Join` for `joined(separator:)`, and `Trim` for
  `trimmingCharacters(in: .whitespacesAndNewlines)`.
- `WordModel` holds the record, its equality and its hash feed.
- `Json` holds an abstract JSON tree and a path lookup, `At`.
- `AIService` holds the extraction, the line parser, the response handler, and
  a formatter that writes records in the requested line format. The formatter
  is the parser's partner in the round-trip lemma.

Modelling choices:

- A string is a sequence of Unicode scalar values. The split works on single
  scalars. A `\r` before a `\n` therefore stays on its line, and trimming then
  removes it.
- The whitespace set is general categories Zs, Zl and Zp, plus U+0009 through
  U+000D and U+0085.
- `UUID()` is random. The model takes a parameter `mint: nat -> Uuid` instead,
  and the record parsed from line `i` gets `mint(i)`. `ParseWordsIgnoresIds`
  shows that the choice of ids never affects `==`.
- Strings compare as sequences of scalars. Swift's `String ==` and
  `Hasher.combine` use canonical equivalence instead (see "## Left out").
- Swift's `Hasher` has a random seed and a hidden mixing function. `Hash` takes
  both as parameters. What the model fixes is the sequence of values fed to the
  hasher (`HashFeed`).
- Lines with three or more `|` are dropped too, because the guard is
  `components.count == 3` (picture2words/AIService.swift:147).
- `json["choices"] as? [[String: Any]]` succeeds only when every element of
  the array is a dictionary. So a non-dictionary second choice also gives -4,
  even when the first choice is well formed (`LaterNonObjectChoiceFails`).

## Model

| member | source | states |
|---|---|---|
| `AIService.ExtractContent` | picture2words/AIService.swift:122-141 | Code -3, with the description `无法解析JSON`, exactly when the top level is not a dictionary. Otherwise the result is `Ok(s)` exactly when `choices` is an array of dictionaries whose path `choices[0].message.content` reaches the string `s`, and code -4 with `解析响应失败` in every other case. Both errors are in the `ParseError` domain and carry the localized description the user is shown. |
| `AIService.LaterNonObjectChoiceFails` | picture2words/AIService.swift:133 | The array cast is all or nothing: a number in the second slot of `choices` gives -4 even though the first choice holds valid content. |
| `AIService.FirstChoiceContentExtracted` | picture2words/AIService.swift:132-136 | A well-formed response hands over the first choice's content string unchanged. |
| `AIService.HandleResponse` | picture2words/AIService.swift:120-162 | A decoder error is passed on as is. A non-dictionary top level gives -3 (`无法解析JSON`). A dictionary without usable content gives -4 (`解析响应失败`). Success happens exactly when extraction succeeds, and the records are then the parse of the string at the content path. |
| `AIService.ParseLine` | picture2words/AIService.swift:146-152 | A line gives a record exactly when it holds exactly two `|`, so lines with 0, 1, or 3 or more are dropped. The record carries the given id, and its fields are trimmed and free of `|`, and also of `\n` when the line is. |
| `AIService.ParseLineFields` | picture2words/AIService.swift:146-152 | For pieces `a`, `b`, `c` without `|`, the line `a\|b\|c` parses to the record `(Trim(a), Trim(b), Trim(c))`. Each field is its pipe-piece with the outer whitespace removed. |
| `AIService.RecordLineShape` | picture2words/AIService.swift:146-147 | Every line with exactly two `|` has the shape `a\|b\|c` with `|`-free pieces, so `ParseLineFields` covers every kept line. |
| `AIService.ParseWords` | picture2words/AIService.swift:144-154 | There are at most as many records as `\n`-separated lines (the count of `\n` plus one). Every record is clean: its fields are trimmed and contain neither `|` nor `\n`. |
| `AIService.RecordLines` | picture2words/AIService.swift:146-147 | The kept line positions are strictly increasing, each holds exactly two `|`, and every line that does is listed. |
| `AIService.ParseWordsOrder` | picture2words/AIService.swift:144-154 | Records come out in line order, one per kept line: the k-th record is the parse of the k-th line that has exactly two `|`. |
| `AIService.EmptyReplyHasNoWords` | picture2words/AIService.swift:144-147 | An empty reply gives an empty list. It splits into one empty line with no `|`, and that line is dropped. |
| `AIService.EmptyFieldsAreKept` | picture2words/AIService.swift:147-152 | Fields are not checked for being non-empty: the reply `\|\|` gives one record with three empty fields. |
| `AIService.ParseFormat` | picture2words/AIService.swift:144-154 | Round trip through the line format the instruction requests (line 60). Write clean records as `word\|phonetic\|meaning` lines joined by `\n`. Parsing that text gives the same records in the same order, each with the id minted for its line. |
| `AIService.ParseFormatRoundTrip` | picture2words/AIService.swift:144-154 | The same round trip stated with the record's own `==`: the parsed list equals the original list. |
| `AIService.ParseWordsIgnoresIds` | picture2words/AIService.swift:148-152 | Two parses of the same reply are equal lists whatever ids they draw. |
| `Wrappers.CompactMap` | picture2words/AIService.swift:154 | `compactMap { $0 }` is never longer than its input. `CompactMapOrder` fixes its elements. |
| `AIService.ParseEach` | picture2words/AIService.swift:145-153 | The `map` over the lines gives one optional per line, in line order. Entry `i` is line `i` parsed with the id `mint(i)`. |
| `Wrappers.CompactMapOrder` | picture2words/AIService.swift:145-154 | `compactMap` keeps every non-nil entry in its original order and nothing else. Its k-th element is the payload at the k-th non-nil position. |
| `Wrappers.CompactMapAllSome` | picture2words/AIService.swift:154 | With no nil entries, `compactMap` only unwraps: same length, same elements. |
| `Wrappers.SomeIndices` | picture2words/AIService.swift:154 | The non-nil positions are strictly increasing and in range, and every non-nil position is listed. |
| `Text.Split` | picture2words/AIService.swift:144 | `components(separatedBy:)` with a one-character separator gives one more piece than there are separators, and no piece contains the separator. |
| `Text.JoinSplit` | picture2words/AIService.swift:144 | Joining the pieces of a split with the same separator gives back the input. |
| `Text.SplitJoin` | picture2words/AIService.swift:144 | Splitting a join of one or more separator-free pieces gives back the pieces. |
| `Text.SplitAtFirstSeparator` | picture2words/AIService.swift:146 | The first separator closes the first piece: `Split(a + [sep] + b) == [a] + Split(b)` when `a` has no separator. |
| `Text.SplitPiecesFromInput` | picture2words/AIService.swift:146 | Splitting introduces no characters: a character absent from the input is absent from every piece. |
| `Text.TrimStart` | picture2words/AIService.swift:149 | Removes exactly the leading whitespace. The result is a suffix, the removed prefix is all whitespace, and the result does not start with whitespace. |
| `Text.TrimEnd` | picture2words/AIService.swift:149 | Removes exactly the trailing whitespace. The result is a prefix, the removed suffix is all whitespace, and the result does not end with whitespace. |
| `Text.Trim` | picture2words/AIService.swift:149-151 | The result neither starts nor ends with whitespace and is no longer than the input. |
| `Text.TrimDecomposes` | picture2words/AIService.swift:149-151 | The input is the trimmed string with a run of whitespace before it and another after it. |
| `Text.TrimUnique` | picture2words/AIService.swift:149-151 | Whatever whitespace surrounds a trimmed string, trimming gives back exactly that string. With `TrimDecomposes` this describes `Trim` completely. |
| `Text.TrimFixpoint` | picture2words/AIService.swift:149-151 | Trimming leaves a string unchanged if and only if it has no leading or trailing whitespace. |
| `Text.TrimIdempotent` | picture2words/AIService.swift:149-151 | Re-trimming a field leaves it unchanged. |
| `Text.TrimKeepsAbsent` | picture2words/AIService.swift:149-151 | Trimming introduces no characters, so a field cut from a `\|`-free piece of a `\n`-free line contains neither. |
| `WordModel.SameIgnoresId` | picture2words/WordModel.swift:17-21 | `Same` models the custom `==`. Two records are `Same` exactly when they are structurally equal once their ids are made to agree. So the three text fields decide and the `id` plays no part. Strings are compared as scalar sequences. |
| `WordModel.FreshIdsStillSame` | picture2words/WordModel.swift:3-7 | Two records built from the same three strings are `==` even when their ids differ. |
| `WordModel.SameIsEquivalence` | picture2words/WordModel.swift:17-21 | `==` is reflexive, symmetric and transitive. |
| `WordModel.HashFeedMatchesSame` | picture2words/WordModel.swift:10-21 | `HashFeed` models `hash(into:)` as the list of values it combines: `word`, `phonetic`, `chineseMeaning`. Two records feed the same values in the same order exactly when they are `Same`. |
| `WordModel.HashRespectsSame` | picture2words/WordModel.swift:10-14 | The `Hashable` law for `Hash` (the hasher run over `HashFeed` from a seed with a mixing step): records that are `Same` hash equally, for every seed and every mixing function. |

## Left out

- Network and transport are left out: the reachability guard, the request headers and body, the `URLSession` task, the transport error and the missing-data error -2 (picture2words/AIService.swift:25-113). They are I/O and asynchronous callbacks. `NetworkError` (lines 189-202) belongs to this path.
- Image handling is left out: `resizeImage`, JPEG compression and base64 encoding (picture2words/AIService.swift:37-48, 166-179). These are floating-point work and UIKit calls.
- Byte-level JSON decoding is left out. `HandleResponse` takes the decoder's outcome as an input: either a tree or the error it threw.
- Logging, the keychain-backed API key, `validateImageSize`, and all SwiftUI views and their `isRecognizing` state are left out. They are UI, foreign-library calls, or Double arithmetic on encodings that cannot be seen here.
- `UUID()` generation and the hasher's random seed and mixing are parameters, not models.
- Unicode grapheme clustering is left out. Characters are Unicode scalars, so a line ending `\r\n` splits after the `\n` and the `\r` is trimmed.
- `WordModel.Same`, `WordModel.HashFeed`: text equality and hash input are the identity of scalar sequences, not Swift's canonical equivalence. Swift treats `"\u{E9}"` and `"e\u{301}"` as `==` and hashes their normalized form. Unicode normalization is a table-driven algorithm outside this model. The `==` modelled here is therefore stricter than the source's on strings that are canonically equivalent but spelled differently, and `SameIgnoresId`, `SameIsEquivalence`, `HashFeedMatchesSame` and `HashRespectsSame` speak about that stricter equality.
- `AIService.ParseLine`: promises the `\n`-free field property only for lines without `\n`. Every line that `ParseWords` passes in has that property, but a bare call on a line containing `\n` can produce a field with an inner `\n`.
