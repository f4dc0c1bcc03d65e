# hashbang router and validation rule strings, in Dafny

This project models the core of a client-side URL-fragment ("hashbang") router and proves
properties of the model. The router has five parts:

- **Segment codec.** `_encode` and `_decode` are `encodeURIComponent`, and `decodeURIComponent`
  that falls back to `""`.
- **Fragment parser and serialiser.** `parse` reads `#!/a/b/?k=v` into a path and a query.
  `stringify` writes one back.
- **Route matcher.** `matches` tests a fragment against a route such as `/id/:id/` and binds the
  placeholders.
- **Listener registry.** `on`, `un` and `_isSafePart` manage the two global listener lists and the
  two key-to-bucket maps of `path` and `query`.
- **Change dispatcher.** The `hashchange` handler and `_differentKeys` decide which listeners run
  when the fragment changes, and in what order.

The project also models the rule-string side of the form-validation UI. `_parseValidation` reads a
`data-validation` attribute such as `min:3, alias:Name`. `_parseRules` decides the order in which
rules and aliases reach the validator.

Modules:

| file | module | what it holds |
|---|---|---|
| wrappers.dfy | `Wrappers` | `Option` and `Result` |
| seqs.dfy | `Seqs` | small facts about sequence concatenation used by the proofs |
| text.dfy | `Text` | JavaScript `split`, `join` and `trim` |
| segment_codec.dfy | `SegmentCodec` | percent-encoding over UTF-8 (section 2.1 of RFC 3986, RFC 3629), the decoder's failure cases |
| fragment.dfy | `Fragment` | `parse` and `stringify`, with the query-string codec as a parameter |
| route_matcher.dfy | `RouteMatcher` | the route compiled to tokens; a deterministic matcher proved equal to a reference relation; parameter binding |
| registry.dfy | `Registry` | the registry as a value; `on` and `un` as functions; `un` as written beside `un` as documented |
| dispatcher.dfy | `Dispatch` | `_differentKeys` and the dispatch order |
| hashbang.dfy | `Hashbang` | `Router`, a class holding the four module-level collections. Its methods update them in place with the source's loops, and each is proved equal to the `Registry`/`Dispatch` function |
| validation.dfy | `Validation` | `_parseValidation`, and `_parseRules` as the ordered list of validator calls |

Where the code and its own doc comments disagree, the model records both:

- `parse` follows its code. Its doc comment (`src/core/navigator/hashbang.js:47`) says the result
  holds `path` and `query`, but for an input that is not a string, or whose fragment lacks `#!/`,
  the code returns `{}` (lines 60-68), and so does `Fragment.Parse`.
- `un` is modelled twice. Its documented behaviour, from the usage notes at lines 429-446
  (`un(part, key, fn)` and `un('path', 0)`), is `Registry.Un` and `Hashbang.Router.Un`; the code as
  written is `Registry.UnAsWritten`. "## Findings" lists where the two differ.

Two behaviours of the code are kept as written:

- Each path piece is decoded, kept when the decoded text is non-empty, and the kept text is
  decoded once more before it is stored (lines 78-83).
- `un` with an empty list of keys and a listener does nothing.

Object keys are strings: path index `i` is the property name `Decimal(i)`, as JavaScript coerces
it. Objects are association lists in enumeration order. Listeners are identified by a number.

## Model

| member | source | states |
|---|---|---|
| SegmentCodec.Encode | src/core/navigator/hashbang.js:563-565 | `_encode` never shortens its input |
| SegmentCodec.EncodeChars | src/core/navigator/hashbang.js:563-565 | an encoded segment holds only unreserved characters, `%` and hex digits, so never `/`, `?` or `#` |
| SegmentCodec.EncodeEmpty | src/core/navigator/hashbang.js:563-565 | a segment encodes to the empty string exactly when it is empty |
| SegmentCodec.DecodeEncode | src/core/navigator/hashbang.js:563-579 | decoding an encoded segment gives it back |
| SegmentCodec.DecodeNoPercent | src/core/navigator/hashbang.js:573-579 | decoding leaves text without `%` unchanged |
| SegmentCodec.DecodeBadEscape | src/core/navigator/hashbang.js:573-579 | for every text with a `%` anywhere that is not followed by two hex digits, `decodeURIComponent` throws and `_decode` gives `""` |
| SegmentCodec.DecodeFailures | src/core/navigator/hashbang.js:573-579 | a truncated escape, a non-hex escape and a lone continuation octet all decode to `""` |
| SegmentCodec.DecodeTwoOctets | src/core/navigator/hashbang.js:573-579 | `%C3%A9` decodes to `é` |
| SegmentCodec.HexRoundTrip | src/core/navigator/hashbang.js:563-579 | an escaped octet reads back as itself |
| SegmentCodec.OctetsRoundTrip | src/core/navigator/hashbang.js:563-579 | a run of escaped octets reads back as itself, whatever follows |
| SegmentCodec.Utf8Spells | src/core/navigator/hashbang.js:563-579 | a multi-octet UTF-8 form announces its length in its first octet and spells its code point |
| SegmentCodec.DecodeEncodeChar | src/core/navigator/hashbang.js:563-579 | decoding one encoded character then the rest is that character before the rest's decoding |
| Fragment.OrDefault | src/core/navigator/hashbang.js:70-71 | `sep \|\| '&'` is the argument or the default, and non-empty when the default is |
| Fragment.HashSuffix | src/core/navigator/hashbang.js:64 | the match of `/#.*$/` is a suffix of the input that starts with `#` |
| Fragment.HashSuffixFirst | src/core/navigator/hashbang.js:64 | that suffix starts at the first index where a match can start, and is absent when none can |
| Fragment.Parse | src/core/navigator/hashbang.js:59-89 | an absent input gives `{}`; a route is produced exactly when the match of `/#.*$/` exists and starts with `#!/` |
| Fragment.ParseFragmentUnmarked | src/core/navigator/hashbang.js:64-68 | `#` followed by anything but `!` gives `{}` |
| Fragment.ParseWithoutHash | src/core/navigator/hashbang.js:60-68 | text without `#` gives `{}` |
| Fragment.ParseWithoutBang | src/core/navigator/hashbang.js:64-68 | `#/a` gives `{}` |
| Fragment.ParseAfterLineBreak | src/core/navigator/hashbang.js:64-68 | a line break after the marker leaves no match of `/#.*$/` from the marker, so `{}` |
| Fragment.ParseHashbang | src/core/navigator/hashbang.js:74-88 | `#!/path?qs` gives the kept segments of `/path` split on `/` and the codec's parse of `qs` |
| Fragment.ParseFragment | src/core/navigator/hashbang.js:74-88 | a marked fragment with no later `#` and either no `?` or one `?` followed by non-empty query text gives the kept pieces of its path and the codec's parse of that query text, or of nothing when there is no `?` |
| Fragment.ParseLoneQueryMark | src/core/navigator/hashbang.js:74-88 | `#!/path?`, whose only `?` ends it, gives the kept pieces of `/path` and the codec's parse of the empty query text `""`, not of nothing |
| Fragment.ParseMarkedText | src/core/navigator/hashbang.js:64-88 | `#!/` followed by text without line breaks is parsed as `/` and that text, cut at its first `#` and split at `?` |
| Fragment.ParseSecondQuery | src/core/navigator/hashbang.js:74-88 | `#!/path?qs?rest` gives the kept pieces of `/path` and the codec's parse of `qs` alone: everything after the second `?` is dropped |
| Fragment.ParseCutAtHash | src/core/navigator/hashbang.js:74-88 | `#!/path#rest` gives the kept pieces of `/path` and the codec's parse of nothing: everything after the later `#` is dropped |
| Fragment.ParseExample | src/core/navigator/hashbang.js:49-57 | `#!/a/b/c?a=1&b=2` gives path `a, b, c` and the codec's parse of `a=1&b=2` |
| Fragment.KeptSegments | src/core/navigator/hashbang.js:78-83 | at most one segment per piece is kept |
| Fragment.KeptNoPercent | src/core/navigator/hashbang.js:78-83 | without `%`, the kept segments are the non-empty pieces, in order |
| Fragment.KeptAppendEmpty | src/core/navigator/hashbang.js:78-83 | a trailing empty piece adds nothing |
| Fragment.NonEmpty | src/core/navigator/hashbang.js:78-83 | the reference: a segment is kept exactly when it is non-empty |
| Fragment.Stringify | src/core/navigator/hashbang.js:109-129 | the result always starts with `#!` |
| Fragment.PathText | src/core/navigator/hashbang.js:123-128 | an array path is written with a leading and a mandatory trailing `/` |
| Fragment.StringifyEmpty | src/core/navigator/hashbang.js:109-128 | an empty path, as an empty array or as `""`, with an empty query gives exactly `#!/` |
| Fragment.StringifyExample | src/core/navigator/hashbang.js:98-107 | path `a, b, c` with query `a=1&b=2&c=3` gives `#!/a/b/c/?a=1&b=2&c=3` |
| Fragment.StringifyTextPath | src/core/navigator/hashbang.js:118-121 | a non-empty string path is copied after `#!` with no slash added, followed by `?` and the query text when that is non-empty; when the path does not start with `/` and neither part holds `#`, the result does not parse as a route |
| Fragment.StringifyTextRoute | src/core/navigator/hashbang.js:59-121 | a string path that starts with `/`, with no `#`, `?` or line break in it or in the query text, parses back to the kept pieces of the path and the codec's parse of the query text |
| Fragment.StringifyParse | src/core/navigator/hashbang.js:59-129 | parsing a stringified array path gives the segments that are non-empty after decoding, and the codec's parse of the stringified query |
| Fragment.StringifyParsePath | src/core/navigator/hashbang.js:59-129 | without `%` in any segment, the round trip gives the path with its empty segments dropped |
| Fragment.KeptEncoded | src/core/navigator/hashbang.js:78-83 | keeping encoded segments is decoding them and dropping empties |
| Fragment.DecodedNoPercent | src/core/navigator/hashbang.js:78-83 | without `%`, decoding twice changes nothing |
| Fragment.StringifyParseDecodesTwice | src/core/navigator/hashbang.js:78-83 | the segment `100%` survives the round trip only as `""`: the second decode fails |
| Fragment.PathTextKept | src/core/navigator/hashbang.js:78-83 | the pieces of a written path give back the decoded non-empty segments |
| Fragment.HashSuffixWhole | src/core/navigator/hashbang.js:64 | a fragment without line breaks is its own match of `/#.*$/` |
| Fragment.SplitAtQuery | src/core/navigator/hashbang.js:74-75 | the path text and query text are recovered by splitting at `?` |
| RouteMatcher.Subject | src/core/navigator/hashbang.js:164-171 | the matched subject starts with `/` and holds no `?` |
| RouteMatcher.SubjectWithoutHash | src/core/navigator/hashbang.js:168-171 | text without `#` gives the subject `/#` |
| RouteMatcher.SubjectOfMarked | src/core/navigator/hashbang.js:168-171 | the subject of `#!` + path + query is the path |
| RouteMatcher.SubjectOfStringified | src/core/navigator/hashbang.js:164-171 | the subject of a stringified array path is its path text |
| RouteMatcher.RunLength | src/core/navigator/hashbang.js:178 | the placeholder name runs to the first `/` |
| RouteMatcher.TokenizeSpell | src/core/navigator/hashbang.js:178-183 | the tokens of a route spell the route |
| RouteMatcher.TokenizeWellFormed | src/core/navigator/hashbang.js:178 | every placeholder has a non-empty slash-free name and is followed by `/` or ends the route |
| RouteMatcher.TokenizeSlash | src/core/navigator/hashbang.js:174-175 | appending `/` to a route appends one literal `/` token |
| RouteMatcher.Compile | src/core/navigator/hashbang.js:174-179 | the end slash is optional exactly when `isIgnoreEndSlash` is set |
| RouteMatcher.CompileEndSlash | src/core/navigator/hashbang.js:174-175 | with the option, a route ending in `/` is compiled with that `/` made optional |
| RouteMatcher.CompileNames | src/core/navigator/hashbang.js:178-183 | compilation keeps the placeholder names in order, so the capture groups line up with the scanned names |
| RouteMatcher.Names | src/core/navigator/hashbang.js:181-183 | there are no more names than tokens |
| RouteMatcher.MatchTokens | src/core/navigator/hashbang.js:178-185 | a match yields one capture per placeholder |
| RouteMatcher.MatchSound | src/core/navigator/hashbang.js:178-185 | what the matcher returns is generated by the pattern |
| RouteMatcher.MatchComplete | src/core/navigator/hashbang.js:178-185 | whatever a well-formed pattern generates, the matcher finds, with the same captures |
| RouteMatcher.CapturesNonEmpty | src/core/navigator/hashbang.js:178 | every capture is non-empty and slash-free |
| RouteMatcher.GeneratedCaptures | src/core/navigator/hashbang.js:178 | the same holds of the reference relation |
| RouteMatcher.Bind | src/core/navigator/hashbang.js:191-196 | binding starting from an object yields an object |
| RouteMatcher.BindSome | src/core/navigator/hashbang.js:191-196 | binding yields `null` exactly when it starts from `null` and there is no name |
| RouteMatcher.BindKeys | src/core/navigator/hashbang.js:191-196 | the bound keys are the keys there were plus the names |
| RouteMatcher.BindLast | src/core/navigator/hashbang.js:191-196 | a repeated name keeps its last capture |
| RouteMatcher.BindKeeps | src/core/navigator/hashbang.js:191-196 | keys that are not names keep their values |
| RouteMatcher.ParamsSpec | src/core/navigator/hashbang.js:191-196 | `params` is `null` exactly when the route has no placeholder; otherwise its keys are the names and each maps to its last capture |
| RouteMatcher.Matches | src/core/navigator/hashbang.js:152-202 | a non-string fragment gives `null`; a match reports the original route |
| RouteMatcher.MatchesAccepted | src/core/navigator/hashbang.js:152-202 | when the compiled route generates the subject, `matches` returns the route and the bound captures |
| RouteMatcher.MatchesRejected | src/core/navigator/hashbang.js:185-189 | `matches` succeeds exactly when the compiled route generates the subject |
| RouteMatcher.MatchesParams | src/core/navigator/hashbang.js:191-201 | on a match, `params` is `null` exactly without placeholders, and otherwise holds each name with a non-empty slash-free value |
| RouteMatcher.GeneratesEndSlash | src/core/navigator/hashbang.js:174-179 | without the option, a route ending in `/` only generates subjects ending in `/` |
| RouteMatcher.MatchesStrictEndSlash | src/core/navigator/hashbang.js:174-179 | without `isIgnoreEndSlash`, a route ending in `/` only matches subjects ending in `/` |
| RouteMatcher.MatchesOnePlaceholder | src/core/navigator/hashbang.js:152-202 | a route `prefix:name/` matches `#!prefix` + value, with or without the end slash, and binds the name to the value |
| RouteMatcher.CompileOne | src/core/navigator/hashbang.js:174-183 | such a route compiles to its literal prefix and one capture, and names one placeholder |
| RouteMatcher.TokenizeLits | src/core/navigator/hashbang.js:178 | text without `:` tokenises to literals |
| RouteMatcher.TokenizePlaceholder | src/core/navigator/hashbang.js:178 | `:name` tokenises to one capture |
| RouteMatcher.LitsStep | src/core/navigator/hashbang.js:178-185 | literals match their own text and leave the rest to the remaining pattern |
| RouteMatcher.CaptureLast | src/core/navigator/hashbang.js:174-178 | a final placeholder takes the whole value, with or without the optional end slash |
| RouteMatcher.ParamsOne | src/core/navigator/hashbang.js:191-196 | one name bound to one capture gives that one-entry object |
| RouteMatcher.MatchesExample | src/core/navigator/hashbang.js:140-147 | `#!/id/abc123/` and `#!/id/abc123` match `/id/:id/` with `id` bound to `abc123` |
| RouteMatcher.MatchesOtherPath | src/core/navigator/hashbang.js:149-150 | `#!/name/abc123/` does not match `/id/:id/` |
| RouteMatcher.MatchesEndSlashRequired | src/core/navigator/hashbang.js:174-179 | with `isIgnoreEndSlash` false, `#!/id/abc123` does not match `/id/:id/` |
| Registry.PartOf | src/core/navigator/hashbang.js:538-540 | a part is valid exactly when it is `path` or `query` |
| Registry.Decimal | src/core/navigator/hashbang.js:411-412 | an index's property name is its decimal digits, without leading zeros |
| Registry.DecimalValue | src/core/navigator/hashbang.js:411-412 | the digits spell the index back |
| Registry.DecimalInjective | src/core/navigator/hashbang.js:411-412 | two indexes share a property name exactly when they are equal |
| Registry.On | src/core/navigator/hashbang.js:385-419 | an invalid part throws; the other part never changes; with one argument the global list gains the listener at its end when it is a function and is otherwise unchanged; with a key and a listener every named key gets a bucket and each bucket gains the listener once per time its key is named, or nothing when it is not a function; nothing else changes |
| Registry.OnKeyed | src/core/navigator/hashbang.js:404-418 | `on(part, key, fn)` pushes `fn` onto that key's bucket, creating it if missing, and changes no other bucket |
| Registry.AttachBuckets | src/core/navigator/hashbang.js:407-417 | the keyed `on` creates a bucket for every key named, and each bucket gains the listener once per naming, after its old contents |
| Registry.IndexOf | src/core/navigator/hashbang.js:470 | `indexOf` gives `-1` exactly when absent, and otherwise the first index holding the listener |
| Registry.RemoveFirst | src/core/navigator/hashbang.js:470-474 | an absent listener leaves the list unchanged |
| Registry.RemoveFirstSplit | src/core/navigator/hashbang.js:470-474 | only the first occurrence is removed; the rest keeps its order |
| Registry.RemoveFirstCount | src/core/navigator/hashbang.js:470-474 | the list loses exactly one copy of the listener when present, and nothing else |
| Registry.ClearBuckets | src/core/navigator/hashbang.js:475-480 | the named buckets become empty (created if missing) and every other bucket is kept |
| Registry.DetachBuckets | src/core/navigator/hashbang.js:481-490 | as documented, each named bucket loses the listener's first occurrence once per naming; no bucket is created |
| Registry.Un | src/core/navigator/hashbang.js:421-492 | as documented: an invalid part throws; the other part never changes; no argument empties the global list; a listener alone leaves the global list with one occurrence fewer (one element shorter when present); keys alone keep the global list and empty every named bucket, creating it when missing, keeping the rest; keys with a listener keep the global list and the key set and remove the listener from each bucket once per time its key is named; any other call changes nothing |
| Registry.UnClearIdempotent | src/core/navigator/hashbang.js:460-480 | `un(part)` and `un(part, keys)` succeed, and a second call changes nothing |
| Registry.OnThenUn | src/core/navigator/hashbang.js:466-474 | removing a global listener just added restores the registry |
| Registry.OnThenUnKeyed | src/core/navigator/hashbang.js:481-490 | removing a keyed listener just added restores every bucket; only the key's bucket is left in existence |
| Registry.DetachOne | src/core/navigator/hashbang.js:481-490 | detaching a listener pushed last onto a bucket without it removes that push |
| Registry.UnAsWritten | src/core/navigator/hashbang.js:448-492 | the code as written only ever throws the part error or the `indexOf` error |
| Registry.UnAsWrittenAgrees | src/core/navigator/hashbang.js:448-492 | as written and as documented agree on every call except a numeric key and the keyed removal of a listener |
| Registry.UnKeyedListenerThrows | src/core/navigator/hashbang.js:481-490 | as written, `un(part, keys, fn)` with a non-empty key list throws, where the documented call succeeds |
| Registry.UnKeyedListenerExample | src/core/navigator/hashbang.js:481-490 | `un('path', '0', fn)` throws as written; as documented it empties the bucket holding only `fn` |
| Registry.UnNumericKeyIgnored | src/core/navigator/hashbang.js:475-481 | as written, `un(part, n)` changes nothing; as documented it empties the bucket of `n` |
| Registry.UnNumericKeyExample | src/core/navigator/hashbang.js:429-432 | `un('path', 0)` leaves bucket `0` holding `7` as written, and empties it as documented |
| Dispatch.Lookup | src/core/navigator/hashbang.js:592-598 | a lookup misses exactly when the key is not among the object's keys |
| Dispatch.LookupAt | src/core/navigator/hashbang.js:592-598 | with unique keys, each key finds its own value |
| Dispatch.LookupSome | src/core/navigator/hashbang.js:592-598 | a value found is stored under the key |
| Dispatch.ChangedKeysMembers | src/core/navigator/hashbang.js:591-595 | the first loop keeps exactly the keys of the first object whose value differs in the second, without repeats |
| Dispatch.FreshKeysMembers | src/core/navigator/hashbang.js:597-601 | the keys only the second object has, without repeats |
| Dispatch.AddedKeysFresh | src/core/navigator/hashbang.js:597-601 | the second loop appends exactly the second object's keys that the first lacks |
| Dispatch.DifferentKeysSplit | src/core/navigator/hashbang.js:588-603 | `_differentKeys` is the differing keys of the first object in its order, then the keys only the second has, in its order |
| Dispatch.DifferentKeysMembers | src/core/navigator/hashbang.js:588-603 | a key is reported exactly when its values differ (a missing key differs from any value), and no key twice |
| Dispatch.DifferentKeysSame | src/core/navigator/hashbang.js:588-603 | an object compared with itself has no different keys |
| Dispatch.ArrayUnique | src/core/navigator/hashbang.js:498 | a path array has no repeated key |
| Dispatch.LookupIndex | src/core/navigator/hashbang.js:592 | looking up an index's name gives the segment at that index, or nothing past the end |
| Dispatch.ArrayKeys | src/core/navigator/hashbang.js:588-603 | every key of a path array is an index's name |
| Dispatch.PathKeysChanged | src/core/navigator/hashbang.js:588-603 | an index is reported exactly when the segments at it differ, a missing segment included, and nothing else is reported |
| Dispatch.SnapshotOf | src/core/navigator/hashbang.js:496-499 | the path of a parsed fragment, as an object, has unique keys |
| Dispatch.FanoutMembers | src/core/navigator/hashbang.js:508-514 | a listener is called for the changed keys exactly when it is in the bucket of one of them |
| Dispatch.PartMembers | src/core/navigator/hashbang.js:502-514 | a listener of one part is called exactly when it is global and some key changed, or it is under a changed key |
| Dispatch.DispatchMembers | src/core/navigator/hashbang.js:495-529 | a listener is called exactly when it is reached through the path or the query |
| Dispatch.DispatchUnchanged | src/core/navigator/hashbang.js:495-529 | no listener runs when nothing changed |
| Dispatch.DispatchExample | src/core/navigator/hashbang.js:495-529 | with global 1, 2 under index 0 and 3 under index 1, changing the second segment calls 1 then 3 |
| Hashbang.Router.constructor | src/core/navigator/hashbang.js:30-33 | the registry starts empty |
| Hashbang.Router.SetAll | src/core/navigator/hashbang.js:460-465 | replacing a global list changes nothing else |
| Hashbang.Router.SetMap | src/core/navigator/hashbang.js:458 | replacing a key-to-bucket map changes nothing else |
| Hashbang.Router.On | src/core/navigator/hashbang.js:385-419 | `on` updates the fields in place to what `Registry.On` computes, and throws exactly when it does, changing nothing then |
| Hashbang.Router.Un | src/core/navigator/hashbang.js:448-492 | `un` updates the fields in place to what the documented `Registry.Un` computes, and throws exactly when it does |
| Hashbang.Router.HashChange | src/core/navigator/hashbang.js:495-529 | the handler calls exactly the listeners `Dispatch.DispatchOrder` lists for the two parsed URLs, in that order |
| Hashbang.AttachKeys | src/core/navigator/hashbang.js:407-417 | the loop over keys computes `Registry.Attach` |
| Hashbang.Splice | src/core/navigator/hashbang.js:470-474 | `indexOf` then `splice` is `Registry.RemoveFirst` |
| Hashbang.ClearKeys | src/core/navigator/hashbang.js:476-480 | the loop over keys computes `Registry.Clear` |
| Hashbang.DetachKeys | src/core/navigator/hashbang.js:482-490 | the loop over keys, searching each key's bucket, computes `Registry.Detach` |
| Hashbang.CallEach | src/core/navigator/hashbang.js:503-505 | each listener of a list is called once, in order |
| Hashbang.CallBuckets | src/core/navigator/hashbang.js:508-514 | the loop over changed keys calls the buckets that exist, in key order |
| Text.Split | src/ui/validation/index.js:234 | `split` on one character gives pieces free of it that join back to the input |
| Text.SplitCount | src/ui/validation/index.js:234 | `split` gives one more piece than there are separators |
| Text.SplitJoin | src/ui/validation/index.js:234 | splitting pieces joined by a separator they lack gives the pieces back |
| Text.Trim | src/ui/validation/index.js:241-242 | `trim` cuts only white space and line terminators, and leaves none at either end |
| Text.TrimKept | src/ui/validation/index.js:241-242 | text without white space at either end is unchanged by `trim` |
| Text.TrimBlank | src/ui/validation/index.js:242 | text made only of white space trims to `""` |
| Validation.ParseValidation | src/ui/validation/index.js:226-247 | no entry for an absent or empty rule string; otherwise one entry per `dataSep` piece, empty pieces included |
| Validation.EntryNoValue | src/ui/validation/index.js:238-243 | a piece without `dataEqual` gives its trimmed text and the value `true` |
| Validation.EntryFields | src/ui/validation/index.js:238-243 | the name is the trimmed text before `dataEqual`; the value is `true` when nothing follows, and the trimmed rest otherwise |
| Validation.EntryDropsRest | src/ui/validation/index.js:238-243 | text after a second `dataEqual` is dropped |
| Validation.EntryBlankValue | src/ui/validation/index.js:242 | a value made only of white space becomes `""`, not `true` |
| Validation.EntryRender | src/ui/validation/index.js:238-243 | one written entry reads back as itself |
| Validation.ParseRender | src/ui/validation/index.js:226-247 | a rule string written from trimmed entries that hold neither separator parses back to those entries, in order |
| Validation.FieldType | src/ui/validation/index.js:32-35 | a `textarea` or `select` never has a type rule |
| Validation.LabelText | src/ui/validation/index.js:36 | `REG_LABEL` captures the longest prefix holding neither `:` nor `：` |
| Validation.FirstUnknown | src/ui/validation/index.js:203-205 | the first entry that is neither an alias nor a registered rule, or the end |
| Validation.FoldSpec | src/ui/validation/index.js:194-208 | the `forEach` makes one call per entry in order, up to the first unknown rule; there it throws ``` `name` is not found ```; `hasAlias` is set exactly when an alias came before |
| Validation.FoldSticky | src/ui/validation/index.js:203-205 | after a throw, no later entry does anything |
| Validation.RulesSpec | src/ui/validation/index.js:169-217 | `_parseRules` makes the leading rules, then one call per entry up to the first unknown rule, where it throws; without a throw, the label's alias follows when no entry was an alias |
| Validation.RulesLeading | src/ui/validation/index.js:182-192 | `required` comes first exactly when the field is required; the only built-in rules are `required` and the type of a `number`, `email` or `url` field; they precede every other call |
| Validation.RulesLabel | src/ui/validation/index.js:210-216 | the label adds only one final alias, and only when nothing threw, no entry was an alias and the label exists |
| Validation.ForEachEntry | src/ui/validation/index.js:194-208 | the loop with its `hasAlias` flag computes `Fold` |
| Validation.ParseRules | src/ui/validation/index.js:169-217 | the method computes `Rules` |

## Left out

- The `hashchange` subscription, the event object and the listener calls themselves are foreign.
  Dispatch yields the ordered list of listener identities instead. The `this` and arguments a
  listener receives are not modelled.
- A listener that changes the registry while a dispatch runs is not modelled. This is a reentrancy
  concern, and `Router.HashChange` reads the fields only as they are when it starts.
- `querystring.js` is not part of this model. `qs.parse` and `qs.stringify` are the two
  functions of a `Fragment.QueryCodec` parameter. Query values are strings. The code compares
  values with `!==`, which always reports a repeated (array-valued) query key as changed; that
  comparison is not modelled.
- `data.type`, `data.each` and `data.extend` are not part of this model. Their effect is written
  out: argument kinds are the constructors of `Registry.Arg`, and `each` is a loop in order.
- A URL without the marker parses to `{}`. `_differentKeys(undefined, obj2)` then throws a
  `TypeError` at line 598 when `obj2` has keys. `Dispatch.SnapshotOf` reads `{}` as an empty path
  and an empty query instead.
- `Registry.KeyNames`: a key is a string or a natural number, and an array holds only those. Other
  key values (negative or fractional numbers, objects) are not modelled. Prototype property names
  such as `constructor` are not special.
- RouteMatcher.Matches: characters of a route other than `:name` placeholders are literals.
  Regular-expression metacharacters such as `.` or `(` are not modelled. `isIgnoreCase` folds
  ASCII letters only.
- `stringify` writes default `path` and `query` back into its argument (lines 112-113). That write
  is not modelled. `Fragment.Stringify` takes the path and the query as values.
- Strings are sequences of Unicode scalar values, not UTF-16 code units. Lone surrogates, which make
  `encodeURIComponent` throw, cannot occur.
- Validation.ParseValidation: `dataSep` and `dataEqual` are single characters. The code accepts any
  string.
- The validation UI around the parser is not modelled. That covers DOM queries, attribute reads,
  `toLowerCase` of the tag name (the tag name is given lower-cased), submit and event wiring, the
  external `Validation` library, the rule factories of `rules.js` (a rule is the factory's name and
  its value), the `addRule` warning and `DEBUG`.
- Validation.Rules: the registered rules are a set of names. `validationMap[name]` looking up a
  prototype property is not modelled.
- The commented-out `set`, `remove`, `get` (lines 204-368) and `_isSafeVal` (lines 543-554) are dead
  code.

## Findings

| source | as written | input that shows it | evidently intended | confidence | as-written member | corrected member |
|---|---|---|---|---|---|---|
| src/core/navigator/hashbang.js:485 | `listenerMap.indexOf(listener)` is called on the key-to-bucket object, which has no `indexOf`, so the three-argument `un` throws a `TypeError` for any non-empty key list | `un('path', '0', fn)` with `fn` registered under `0` | search the bucket `listenerMap[k]` and remove the listener's first occurrence from it | high, not executed | Registry.UnKeyedListenerThrows | Registry.DetachBuckets |
| src/core/navigator/hashbang.js:475-481 | the key branches of `un` accept only a string or an array key, so a numeric path index, with or without a listener, falls through and nothing happens | `un('path', 0)` with a bucket under `0` | empty the bucket of index `0`, as the usage notes at lines 429-432 describe | high, not executed | Registry.UnNumericKeyIgnored | Registry.Un |
