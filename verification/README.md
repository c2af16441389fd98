# A verified model of Tokenhush

Tokenhush swaps secrets for placeholders on the way out and puts them back on the way in. It
edits the raw bytes of JSON documents and of server-sent event streams and never serialises
them again. This project models that core in Dafny and proves what it promises.

A module models one part of the program; its `...Laws` companions prove properties of it.

- **Event streams.** `Sse` (the decoder), `Placeholder` (the grammar and its matcher),
  `Holdback` (the bounded rewriter) and `SseBackfill` (the reassembler) are classes, loops and
  methods, each proved equal to a function of its inputs and old state. The laws are about
  those functions: `SseLaws`, `SseMeaning`, `PlaceholderLaws`, `HoldbackPlaceholder`,
  `Reassembly`, `ReassemblyInv`, `SseRun`, `SseStream`, `SseCarry`, `SseSplit`, `SseShared`,
  `SseFragments`, `SseThree`, `SseHistory`, `SsePlainText`, `SseSpelling`, `SseIdentity`,
  `SseJsonStream`. `SseMeaning` reads the stream's text by itself, without the decoder.
- **The raw-span lens.** `Lens`, `Apply` and `Splice` find, spell and replace the raw bytes of a
  decoded span through any number of JSON strings that hold JSON documents. `LensMeaning` says
  by section 7 of RFC 8259 and section 3 of RFC 3629 what a string's inside means; `LensLaws`,
  `LensPut`, `LensChain`, `LensOffset` treat one span; `Tree`, `TreeLaws`, `TreeApply`,
  `TreeAssign` many spans of a whole nested document; `ApplyLaws` and `ApplyOverlap` say which
  edits are kept; `SpliceInverse`, `LensInverse`, `TreeInverse` undo them.
- **The walk.** `Walk` is the explicit-stack loop over decoder tokens, restarted inside encoded
  strings; `WalkLaws`, `WalkStrings`, `WalkPaths`, `WalkEncoded`, `WalkIdentity`, `WalkKeys`,
  `WalkChannels` and `WalkTree` are its laws.
- **Minting and restoring.** `Mint`, `MintLaws`, `SubstituteLaws`, `Restore`, `RestoreText`,
  `RoundTrip`, `RoundTripLaw`, and for documents that read differently once redacted
  `RereadTree` and `RereadLaw`. `WalkEdit` proves what these laws ask of the walk for the
  model's own.
- **Replacing the binary.** `Replace` and `ReplaceLaws`: four files, and operations that may be
  refused or cut off by a crash.
- **The filter.** `Search`, `StableSort`, `Filter`, `FilterRegistry`, `FilterLaws`,
  `FilterMeaning`, `FilterAgree`, `Luhn`.

`dafny verify dfyconfig.toml` verifies all of it.

What the model does not define it takes as a parameter: what JSON validity is, what Walk finds
in a data value and what a session restores a token to (`Reassembly.Env`); the decoder's tokens
(`Walk.Lexer`); the digest (`Mint.DigestFn`); what a detector matches (`Filter.Rule.find`); the
fate of each file operation (`Replace.Fate`). Laws that need more of a parameter say so in a
named predicate: `SsePlan.WalkSound`, `SseText.Secretful`, `SsePlain.Identity` and
`SsePlain.Lawful`, `SseJsonStream.JsonEnds`, `WalkChannels.ReadsValues`, `Filter.FindsSpans`.
What they ask of Walk, this model's own Walk provides for every decoder whose string tokens
stand in the text where it says (`WalkTree.WalkMeetsLaws`).

## Where the code and its words differ

- `isPlaceholderPrefix` is said to be downward-closed (`pkg/redact/sse_backfill.go:54-56`); it
  rejects `__PII_!` and accepts `__PII_!_` (`PlaceholderLaws.PrefixTestNotClosed`). Of a text it
  accepts it accepts every head exactly when all bytes behind the prefix are in the alphabet of
  the type (`PlaceholderLaws.PrefixTestClosed`). `PrefixLen` is exact all the same.
- `TokenLen` does not look at the bytes of the type, so it also matches outside the grammar.
  Exactly there a stream can differ from the batch rewrite
  (`HoldbackPlaceholder.StreamIsBatchExactly`).
- With a restorer that changes nothing, a JSON value that takes the raw path is escaped once
  more inside such a match. `{"__PII_\"_0123456789ab__":1}` is one (`SseIdentity.OddKeyGrows`);
  `SseIdentity.DataConserved` and `SseJsonStream.JsonStreamUnchanged` give the exact condition.
- A redacted string that happens to parse as a document is restored one level deeper, and its
  secret comes back escaped once more: `["a"b"]` comes back as `["a\"b"]`
  (`RereadLaw.BracketsAstray`). `RereadLaw.RedactReread` says exactly when the values come back.
- A leaf behind 32 wrappers, where the walk stops opening them, is reported as not encoded like
  the strings of the document itself (`WalkEncoded.NotEncoded`), but its path does not lead to it
  (`WalkEncoded.WrappedAstray`, a text of 5347 bytes). `WalkEncoded.PathsLeadHomeExactly` says for
  which documents every path of a leaf so reported does.
- When two placeholders share their underscores across two events, the leaf's own restore and
  the completed secret start at the same byte, and Apply keeps the first in the list, the
  leaf's own. The fragments are deleted all the same, so the first secret is lost
  (`SseSplit.SharedUnderscores`). The events `"__PII_email_0123456789ab"` and
  `"__PII_email_abababababab__"` are such a stream (`SseShared.SecretLost`).
  `SseSplit.SplitTokenRestored` covers every case.
- The unit separator is said never to collide with a pointer (`pkg/protocol/identity.go:13-15`);
  a key that spells it as an escape does (`WalkPaths.SeparatorCollides`).
- The card detector is said to allow single separators (`pkg/filter/primitive_luhn.go:3-6`); the
  loop accepts any number of them, as in `4--222222222222` (`Luhn.SeparatorsAdjacent`).
- `RegisterCompiled` does not carry the blocklist (`FilterAgree.BlocklistLost`);
  `FilterAgree.EvaluatorsAgree` says exactly when that, or a flood of suppressed matches, shows.

## Model

| member | source | states |
|---|---|---|
| Sse.Decoder.Feed | pkg/protocol/sse.go:83-89 | the events and the new state are `FeedSpec` of the old state and the chunk; nothing after Close |
| Sse.Decoder.Close | pkg/protocol/sse.go:94-104 | the last record is dispatched if it has data, and the decoder is closed |
| Sse.Decoder.ScanLines | pkg/protocol/sse.go:109-127 | the line loop equals the recursive scan of the buffer |
| Sse.Decoder.FindLine | pkg/protocol/sse.go:133-156 | the next line with its LF, CR or CRLF terminator; a CR at the end waits for more |
| Sse.Decoder.FoldField | pkg/protocol/sse.go:161-187 | one field line folded into the pending record, with name, colon and one optional space |
| Sse.Decoder.AddData | pkg/protocol/sse.go:192-202 | data lines are joined by LF, and only a single canonical one keeps a span |
| Sse.Decoder.Dispatch | pkg/protocol/sse.go:208-230 | the event holds the record's exact raw bytes, and the buffer keeps what follows |
| SseLaws.ChunkIndependence | pkg/protocol/sse.go:83-127 | for every state whose complete lines are consumed, and every chunking, events and final state are those of the one joined chunk, a split CRLF included |
| SseLaws.DecodeChunkIndependence | pkg/protocol/sse.go:83-104 | the same for a whole stream with its Close |
| SseLaws.FeedConserves | pkg/protocol/sse.go:83-127 | the raw bytes of the events, and then the buffer, are all bytes fed, in order |
| SseLaws.CloseConserves | pkg/protocol/sse.go:94-104 | Close dispatches or keeps every buffered byte |
| SseLaws.FeedSpans | pkg/protocol/sse.go:192-230 | at most one data span per event, inside its raw bytes, and it selects exactly the data |
| SseMeaning.DecodeMeaning | pkg/protocol/sse.go:109-230 | however a text of field rows is cut, the decoder gives the rows' events: the data values joined by LF, the last event and retry behind the last blank row, the last id, remembered from event to event, one space skipped behind the colon, comments and other names ignored, and no event without data |
| SseMeaning.EveryText | pkg/protocol/sse.go:133-175 | every text is written by such rows: name, colon, optional space and value, with LF, CR, CRLF or the end of the stream behind each |
| SseMeaning.SpanSelectsData | pkg/protocol/sse.go:192-230 | an event of rows has at most one span, and it selects the data, which is one line, in what the rows write |
| Placeholder.ScanTokenLen | pkg/redact/sse_backfill.go:26-52 | the loop over type and digest lengths finds the shortest end |
| Placeholder.ScanPrefixLen | pkg/redact/sse_backfill.go:57-63 | the loop over heads stops at the first that is no prefix |
| Placeholder.ScanIsPrefix | pkg/redact/sse_backfill.go:67-95 | the loop over type lengths decides as the recursive test |
| PlaceholderLaws.PrefixLenExact | pkg/redact/sse_backfill.go:57-95 | j is at most PrefixLen exactly when the first j bytes begin some placeholder of the grammar |
| PlaceholderLaws.TokenLenShortest | pkg/redact/sse_backfill.go:26-52 | when a placeholder begins the text, TokenLen is the length of the shortest such one |
| PlaceholderLaws.TypedIsToken | pkg/redact/sse_backfill.go:26-52 | a match is a placeholder of the grammar exactly when its type bytes are in the alphabet |
| PlaceholderLaws.TokenLenAppend | pkg/redact/sse_backfill.go:26-52 | a complete match stays the match whatever follows it |
| PlaceholderLaws.HeldIsShort | pkg/protocol/backfill.go:80-95 | text that is held back is shorter than the longest placeholder |
| PlaceholderLaws.NoInnerToken | pkg/redact/sse_backfill.go:26-63 | no match starts strictly inside the beginning of a placeholder |
| PlaceholderLaws.PrefixTestClosed | pkg/redact/sse_backfill.go:54-95 | of a text that isPlaceholderPrefix accepts it accepts every head exactly when all bytes behind the prefix are type bytes |
| PlaceholderLaws.PrefixTestNotClosed | pkg/redact/sse_backfill.go:54-95 | isPlaceholderPrefix accepts a text whose head it rejects |
| Holdback.BackfillWriter.Feed | pkg/protocol/backfill.go:52-55 | output and held bytes are the release of the held bytes and the new ones |
| Holdback.BackfillWriter.Flush | pkg/protocol/backfill.go:59-63 | the held bytes leave as they are |
| Holdback.BackfillWriter.ReleaseHeld | pkg/protocol/backfill.go:71-98 | the index loop equals the recursive settling, bound included |
| Holdback.StreamIsBatch | pkg/protocol/backfill.go:52-98 | for a lawful matcher, any chunking plus Flush emits the leftmost batch rewrite of the whole text |
| HoldbackPlaceholder.StreamIsBatchExactly | pkg/redact/sse_backfill.go:26-63 | the placeholder matcher does so for every chunking and every rewrite exactly when each leftmost match is a placeholder of the grammar |
| HoldbackPlaceholder.NothingDropped | pkg/protocol/backfill.go:90-95 | the branch that gives up bytes for the bound never fires |
| Lens.FindSpan | pkg/protocol/span.go:87-116 | the two loops of mapSpan give the raw range of a decoded range, or none out of range |
| Lens.LeafRawSpan | pkg/protocol/span.go:121-141 | the loop over the wrappers equals the recursion over the chain |
| Lens.EscapeJSONString | pkg/protocol/spelling.go:17-55 | the fast path and the byte loop both give the escaped text |
| Lens.LeafRawSpelling | pkg/protocol/spelling.go:66-72 | one escape per wrapper |
| LensLaws.CutAt | pkg/protocol/span.go:36-116 | a rune-aligned decoded offset cuts the raw text between two units, and both halves decode to the halves |
| LensPut.EscapeDecodes | pkg/protocol/spelling.go:17-55 | for valid UTF-8 the escaped text is a string interior and decodes to the text |
| LensMeaning.InteriorMeans | pkg/protocol/span.go:36-80 | a text is a string interior exactly when characters and escapes of section 7 of RFC 8259 spell it, hex digits of either case, and it decodes to exactly the RFC 3629 text of what they mean: surrogate pairs as one character, unpaired ones as U+FFFD |
| LensMeaning.SpanOfParts | pkg/protocol/span.go:87-116 | mapSpan takes the place of a run of these in the decoded text to the place of their spelling |
| LensPut.LevelPut | pkg/protocol/span.go:87-116 | replacing any disjoint aligned windows of a raw string at their mapped places replaces exactly them in the decoded string |
| LensChain.PutGet | pkg/protocol/span.go:121-141 | behind any number of wrappers, after a splice every wrapper stands where it stood and the innermost text has exactly the window replaced |
| LensChain.NestedPutGet | pkg/protocol/span.go:121-141 | put/get in the code's own terms: splicing RawSpelling(x) at RawSpan(start, end) |
| LensChain.WindowIsRawSpan | pkg/protocol/spelling.go:61-72 | the window of that law is what RawSpan and RawSpelling compute |
| Apply.ApplyEdits | pkg/protocol/span.go:157-199 | locating, sorting, dropping overlaps and splicing from right to left gives the reference splice, and the indices of the edits kept |
| Apply.KeptFacts | pkg/protocol/span.go:157-199 | the kept windows ascend and do not overlap |
| Apply.DroppedEditsOverlap | pkg/protocol/span.go:157-199 | every locatable edit that would change a byte is kept or overlaps one that is |
| ApplyOverlap.ApplySettled | pkg/protocol/span.go:157-199 | overlapping edits: windows that account for every changing edit, each being one of them or starting inside one that comes before it in the stable order, are exactly what Apply replaces |
| ApplyLaws.ApplyDisjoint | pkg/protocol/span.go:157-199 | on disjoint windows, in any order and with no-op edits among them, Apply replaces each |
| TreeLaws.ValuesAfter | pkg/protocol/span.go:121-199 | editing a nested document changes each leaf by its own windows and no other value |
| TreeApply.ApplyTree | pkg/protocol/span.go:121-199 | Apply on the leaves' edits, in any order, is that edited document |
| TreeAssign.EditsRead | pkg/protocol/span.go:121-199 | the result has the same skeleton and exactly the intended texts as leaf values |
| SseScan.WithinLeafEdits | pkg/redact/sse_leaf_scan.go:15-44 | the jumping loop gives the restores of every complete placeholder of every leaf |
| SseScan.UniqueIdentityMatch | pkg/redact/sse_leaf_scan.go:60-70 | the one identifiable leaf with the key, or none when there is none or more than one |
| SseScan.FindSmallestPrefix | pkg/redact/sse_leaf_scan.go:75-85 | the smallest offset with an unresolved prefix |
| SseScan.FindTrailingPrefix | pkg/redact/sse_leaf_scan.go:89-99 | the last identifiable leaf with an unresolved tail |
| SseScan.FindTrailingAfter | pkg/redact/sse_leaf_scan.go:103-123 | the same behind a completed token |
| SseScan.FillFeed | pkg/redact/sse_spelling.go:21-38 | the spelling of each token of the value being fed |
| SseScan.LeafTokens | pkg/redact/sse_spelling.go:56-72 | every complete placeholder of a text |
| SseBackfill.SSEBackfiller.Write | pkg/redact/sse_backfill.go:221-228 | output and new state are `WriteSpec`; nothing after Flush |
| SseBackfill.SSEBackfiller.Flush | pkg/redact/sse_backfill.go:234-249 | output is `FlushSpec`, and the object is closed |
| SseBackfill.SSEBackfiller.Held | pkg/redact/sse_backfill.go:251-254 | never more than 262144 bytes in a valid open object |
| SseBackfill.SSEBackfiller.Consume | pkg/redact/sse_backfill.go:266-281 | the events, one after the other |
| SseBackfill.SSEBackfiller.AcceptEvent | pkg/redact/sse_backfill.go:287-311 | one event: leaf path, raw path or no data, as `Accept` |
| SseBackfill.SSEBackfiller.AcceptLeafEvent | pkg/redact/sse_leaf.go:182-262 | handled exactly for usable envelopes, and then as `AcceptLeaf` |
| SseBackfill.SSEBackfiller.Match | pkg/redact/sse_leaf.go:222-261 | an event of the carry's channel: completion, give-up or extension |
| SseBackfill.SSEBackfiller.CompleteToken | pkg/redact/sse_leaf.go:232-248 | the fragments are deleted, the queue leaves, the secret is placed and a new tail may be carried |
| SseBackfill.SSEBackfiller.DrainQueue | pkg/redact/sse_leaf.go:161-174 | exactly the final front run is released |
| SseBackfill.SSEBackfiller.HandoffWriter | pkg/redact/sse_leaf.go:127-137 | the writer's tail goes to the newest raw data segment |
| ReassemblyInv.AcceptShape | pkg/redact/sse_leaf.go:88-262 | every event keeps the invariant of indices, budget and carry |
| SseCarry.EveryRun | pkg/redact/sse_backfill.go:251-254 | over all runs: at most 262144 bytes held; while a carry exists its indices ascend from segment 0, are valid, no raw data is queued and the fragments spell it; a writer tail belongs to the first queued data segment |
| SseCarry.AcceptCarried | pkg/redact/sse_leaf.go:182-262 | every event keeps what is known of the held segments: their leaves, edits and contents |
| SseRun.HistoryFrames | pkg/redact/sse_backfill.go:195-200 | a whole run releases each event's bytes once and in order; only data contents may differ |
| SseStream.OutputFrames | pkg/redact/sse_backfill.go:221-249 | the total output is those records and then the bytes never dispatched, and records and tail are the input |
| SseStream.OutputChunkIndependence | pkg/redact/sse_backfill.go:221-249 | the total output does not depend on where the stream was cut |
| SseText.ScanRestores | pkg/redact/sse_leaf_scan.go:15-44 | the edits inside a leaf are the leftmost batch rewrite of its text |
| SsePlainText.TextRestored | pkg/redact/sse_backfill.go:287-311 | a whole stream of text that is not JSON: its joined data is the leftmost batch rewrite of the joined text when that text's leftmost matches are placeholders of the grammar, wherever the events cut it |
| SsePlainText.TextRun | pkg/redact/sse_backfill.go:287-311 | the same for a run of text from any state |
| SseSpelling.SecretSpelled | pkg/redact/sse_spelling.go:21-53 | on the raw path a placeholder's secret is spelled for the last leaf that holds it, escaped once in other JSON, and raw in other text |
| SseHistory.HistoryReads | pkg/redact/sse_leaf.go:182-262 | over any stream, each JSON envelope leaves as the document it was, each string with its placeholders restored, perhaps with a secret for its first bytes that end a placeholder, perhaps without a tail; nothing else changes |
| SseSplit.DeleteOne | pkg/redact/sse_leaf.go:70-84 | deleting a fragment cuts it off from its leaf, in the document as it was queued, or does nothing where a restore reaches over its start |
| SsePlan.HeadPlanned | pkg/redact/sse_leaf.go:236-240 | a secret at the head of a leaf, whatever placeholders the leaf holds: if the edit stands, the leaf reads as the secret and its rest with exactly the restores that start behind the head; otherwise as its own text, restored |
| SsePlan.HeadStandsFor | pkg/protocol/span.go:173-184 | the edit stands when no placeholder starts at the leaf's first byte and the head is not the secret already |
| SseSplit.SplitTokenRestored | pkg/redact/sse_leaf.go:222-249 | the completing step, from any reachable state: carry and head of the leaf are the token; every fragment is cut off from its own leaf as DeleteOne says and nothing else of the held events changed; the completing leaf reads as HeadPlanned says, every other leaf as its restored text |
| SseSplit.ClearHeadText | pkg/redact/sse_leaf.go:236-240 | where no placeholder starts inside the head, the leaf reads as the secret and its restored rest |
| SseSplit.ChannelRestored | pkg/redact/sse_leaf.go:232-249 | the channel's text joined over the leaves that held the fragments and the completing leaf: where no complete placeholder overlaps the first fragment it was head + token + the bytes behind it, and is head + secret + those bytes, restored, so the token becomes the secret, once; where one does, its restore stands and the rest is the same |
| SseFragments.FragmentsRestored | pkg/redact/sse_leaf.go:193-261 | a placeholder cut into two or more fragments over consecutive envelopes of one channel, within the budget, after any stream that leaves nothing carried or whose carry is another channel's: the channel's joined text comes out as the restored head, the secret and the restored rest, once, with no fragment left, and every other leaf is restored as ever |
| SseFragments.FragmentsGone | pkg/redact/sse_leaf.go:233-236 | what has left in front of the completing envelope is the same whatever comes later |
| SseFragments.FragmentsKept | pkg/redact/sse_leaf.go:226-231 | if the session does not know the placeholder, or the secret would have to be escaped in a string that is a torn document, every fragment stays as it was |
| SseFragments.TailCarriedOn | pkg/redact/sse_leaf.go:240-248 | a completing envelope that begins another placeholder behind this one is held and its tail carried, if 262144 bytes are enough for it |
| SseThree.ThreeRestored | pkg/redact/sse_leaf.go:222-261 | the events `__PII_email_`, `0123456789` and `ab__` come out as two empty strings and the secret |
| SseSplit.SharedUnderscores | pkg/redact/sse_leaf.go:236-240 | two placeholders that share their underscores: the leaf reads as its own secret only, and the fragments of the first are gone |
| SseShared.SecretLost | pkg/redact/sse_leaf.go:232-240 | two events from the initial state: both placeholders are complete, and only the second secret is in what leaves |
| SseIdentity.DataConserved | pkg/redact/sse_spelling.go:44-53 | with nothing to restore, the joined data values are conserved exactly when each JSON value on the raw path scans plain, and grow otherwise |
| SseIdentity.TypedConserved | pkg/redact/sse_spelling.go:44-53 | so they are conserved when the matches in each data value are placeholders of the grammar |
| SseIdentity.OddKeyGrows | pkg/redact/sse_spelling.go:44-53 | a concrete value whose data is not conserved |
| SseJsonStream.JsonStreamUnchanged | pkg/redact/sse_backfill.go:139-157 | if all single-line data is JSON, output equals input under exactly that condition |
| Walk.Walker.WalkValue | pkg/protocol/walk.go:109-166 | the explicit-stack loop equals the step function, counter included |
| Walk.Walker.AppendLeaf | pkg/protocol/walk.go:174-190 | the leaves of the inner document, or the string itself |
| Walk.Walker.Document | pkg/protocol/walk.go:91-101 | a value, and nothing behind it |
| Walk.RenderIdentity | pkg/protocol/identity.go:90-102 | path, scalars and occurrence, separated |
| Walk.StripScalar | pkg/protocol/identity.go:149-160 | the literal without the separators in front |
| WalkLaws.DocumentWalk | pkg/protocol/walk.go:109-166 | on the tokens of any value nested at most 10000 deep the loop emits the leaves of the recursive definition, in document order |
| WalkLaws.WalkAccepts | pkg/protocol/walk.go:124-126 | a well-formed document is accepted exactly when it is nested at most 10000 deep |
| WalkStrings.DocumentFound | pkg/protocol/walk.go:91-190 | the tokens alone decide whether a text is accepted and where each leaf stands; each leaf's value is what its token spells |
| WalkEncoded.NotEncoded | pkg/protocol/walk.go:174-190 | a leaf is reported as not encoded exactly when it is a string of the document itself or stands behind 32 wrappers |
| WalkEncoded.PathsLeadHomeExactly | pkg/protocol/walk.go:157-190 | without repeated keys, evaluating the path of every leaf reported as not encoded by sections 3 and 4 of RFC 6901 gives that very string, exactly when no string of the document stands behind 32 strings that are read as documents |
| WalkEncoded.WrappedAstray | pkg/protocol/walk.go:181-183 | a text of 5347 bytes with a string behind 32 wrappers, whose leaf is reported as not encoded and whose path leads elsewhere |
| WalkPaths.PointerRoundTrip | pkg/protocol/walk.go:202-232 | parsing a rendered pointer gives its tokens back |
| WalkIdentity.IdentitiesDistinct | pkg/protocol/identity.go:68-102 | whatever the decoder makes of the texts, identities of one walk are pairwise distinct where no path holds the separator |
| WalkChannels.IdentitiesTell | pkg/protocol/identity.go:87-102 | of one walk or two: with the separator in no path, name or literal and `=` in no name, identities are equal exactly when path, occurrence and the whole list of scalars in front, read off the document tree, are; used exactly up to 1024 bytes |
| WalkChannels.IndexNamed | pkg/protocol/identity.go:104-118 | a scalar of an array is named by its index in decimal, without a leading zero |
| WalkKeys.CleanKeysDistinct | pkg/protocol/identity.go:68-102 | so they are when no key of the document, nor of a document in its strings, holds the separator |
| WalkTree.WalkFindsLeaves | pkg/protocol/walk.go:192-199 | for a decoder whose string tokens stand quoted and in order, Walk's leaves are those of a nested document that is spelled as the text |
| WalkTree.WalkMeetsLaws | pkg/protocol/walk.go:80-101 | so it meets what the laws about streams ask of it |
| WalkEdit.EditedWalk | pkg/protocol/walk.go:80-190 | for a decoder that reads the tokens around a string as before when only its interior changes: after any edit of its strings a body is walked again and is read as the edited document, in which a string may be opened that was not |
| WalkEdit.EditedAsIs | pkg/protocol/walk.go:174-190 | where no string is opened that was not, the leaves found are those of the edited document |
| WalkPaths.SeparatorCollides | pkg/protocol/identity.go:13-16 | with the separator in a key two leaves share an identity |
| Mint.Sanitize | pkg/redact/placeholder.go:130-145 | the capped loop gives the sanitised kind |
| Mint.Engine.Taken | pkg/redact/placeholder.go:119-126 | whether some secret has the placeholder |
| Mint.Engine.MakePlaceholder | pkg/redact/placeholder.go:93-116 | the ladder loop: the known placeholder, the first free one, or none |
| Mint.Backfiller.Mint | pkg/redact/backfill.go:50-57 | the placeholder is minted and recorded with its secret |
| MintLaws.SessionInjective | pkg/redact/placeholder.go:90-116 | over any session and digest, two answers are equal exactly when sanitised kind and secret are, and the reverse map is exactly the inverse of the answers |
| MintLaws.AnswerSpelled | pkg/redact/placeholder.go:93-145 | a new answer is the cleaned kind and the first of the lengths 12 to 64 of the digest in hex whose placeholder is free, and there is none exactly when all are taken |
| MintLaws.MintAllKeeps | pkg/redact/backfill.go:36-57 | from any reachable maps: answers stay, and the inverse stays one |
| MintLaws.Exhausted | pkg/redact/placeholder.go:105-115 | a refusal means that every length the digest reaches is taken |
| MintLaws.MintedIsToken | pkg/redact/placeholder.go:109-110 | everything minted is a placeholder of the grammar |
| MintLaws.MintedMatch | pkg/redact/sse_backfill.go:26-52 | TokenLen takes a minted placeholder whole, whatever follows, exactly when its kind does not embed a shorter one |
| MintLaws.ShortKinds | pkg/filter/schema.go:42 | no kind below 15 bytes, so no frozen category, does |
| Restore.Substitute | pkg/redact/substitute.go:30-58 | only locatable spans are minted; output is Apply of their edits; the report names what was applied |
| SubstituteLaws.PlannedMeans | pkg/redact/substitute.go:35-50 | over a session: one edit for each substitution that can be found, in order, with the placeholder that the session then has for its secret and category |
| Restore.AppendLeaves | pkg/redact/backfill.go:127-144 | one edit per occurrence of the placeholder |
| Restore.BackfillCount | pkg/redact/backfill.go:83-123 | the loops over leaves, snapshot and leftovers give the restored body and the count |
| RestoreText.TextRestored | pkg/redact/backfill.go:83-105 | text pieces joined by mapped placeholders that stand nowhere else: what Walk refuses comes back as the pieces joined by the secrets; the count is that of the joins, whether Walk refuses or not |
| RestoreText.LoneRestored | pkg/redact/backfill.go:59-77 | a mapped placeholder alone comes back as its raw secret |
| RestoreText.PlainText | pkg/redact/backfill.go:95-105 | minted placeholders stand nowhere else where pieces and secrets hold no underscore |
| TreeInverse.UndoneValues | pkg/redact/backfill.go:95-123 | undoing ASCII replacements gives every leaf of a nested document its value back |
| TreeInverse.UndoneBytes | pkg/redact/backfill.go:95-123 | and the document its bytes, when what was replaced was spelled plainly at every level |
| RoundTripLaw.RedactRestore | pkg/redact/substitute.go:30-58 | where the redacted strings are read as the strings they were, BackfillCount after Substitute restores every decoded leaf value, and the body byte for byte when each secret was spelled as RawSpelling spells it |
| RereadLaw.RedactReread | pkg/redact/backfill.go:83-144 | where redacted strings are read as documents: every string has its value back if and only if no secret whose placeholder lies in such a string needs escaping; if so also the bytes, as before, and if not never the bytes |
| WalkEdit.WalkRedactReread | pkg/redact/backfill.go:83-144 | the same for this model's own walk of the body and of the redacted body, with nothing asked of what they find |
| RereadLaw.BracketsAstray | pkg/redact/backfill.go:125-144 | for every digest and category, the string `["a"b"]` with `a"b` redacted comes back as `["a\"b"]` |
| RoundTripLaw.RereadEscapes | pkg/redact/backfill.go:125-144 | a string that is read as a document of one string gets its secret back escaped |
| Replace.Layout.MoveOver | pkg/supply/replace.go:256-265 | rename, or remove and rename, under any fates |
| Replace.Layout.Finish | pkg/supply/replace.go:132-155 | backup, install and the restoring of the backup |
| Replace.Layout.Commit | pkg/supply/replace.go:113-125 | candidate, journal, finish, journal gone |
| Replace.Layout.Repair | pkg/supply/recover.go:50-72 | the recovery branches |
| Replace.Layout.RepairJournaled | pkg/supply/recover.go:75-101 | the branches behind a journal |
| ReplaceLaws.CrashSafe | pkg/supply/replace.go:190-202 | after an update and any number of repairs, each cut off or refused anywhere, one repair that runs through leaves the new binary if the journal had been written and the old one otherwise, and nothing more to repair; undisturbed, the update installs the artifact and keeps the old binary |
| ReplaceLaws.NeverStuck | pkg/supply/recover.go:85-96 | over any history of updates and restarts ErrRecoveryStuck and the rollback are unreachable, and a complete binary is in place after a full repair |
| Search.InsideOccurrence | pkg/filter/evaluate.go:220-241 | the windowed search is true exactly when some occurrence anywhere in the value contains the span |
| Search.LiteralSpans | pkg/filter/evaluate.go:184-201 | all non-overlapping occurrences of every literal, capped at one more than the bound |
| Search.KeywordSpans | pkg/filter/evaluate.go:158-179 | the same on the folded value, whose offsets are those of the value |
| Search.OccurrencesExact | pkg/filter/evaluate.go:165-176 | the spans are occurrences, in order and disjoint, and every occurrence meets one |
| Filter.Evaluate | pkg/filter/evaluate.go:53-124 | the nested loops give the sorted findings of rules, gate and blocklist, or fail exactly when some rule or the total passes the bound |
| FilterMeaning.EvaluationMeans | pkg/filter/evaluate.go:44-125 | every finding is a rule's match of this phase outside the allowlists, a sensitive key or a literal of the blocklist, and each of these is found; of overlapping literals, one that meets them |
| FilterMeaning.EvaluationAnswers | pkg/filter/evaluate.go:53-124 | there is no answer exactly for a phase that is neither, or past the bound of 4096 |
| FilterRegistry.Registry.Register | pkg/filter/registry.go:173-220 | a batch is registered whole, in rank order, or nothing changes |
| FilterRegistry.Registry.RegisterCompiled | pkg/filter/registry.go:131-146 | the rules and the sensitive keys, or nothing |
| FilterRegistry.Collect | pkg/filter/collect.go:28-82 | the loop gives the attributed findings in order, or fails |
| FilterRegistry.InspectView | pkg/filter/registry.go:240-250 | the rule's spans without the suppressed ones |
| FilterRegistry.Compile | pkg/filter/compile.go:103-149 | the rules in priority order, or none on a duplicate or ill-formed rule |
| FilterLaws.CompileAnyOrder | pkg/filter/compile.go:142-147 | every permutation of the declared rules compiles to the same set, or to none |
| FilterLaws.CompiledInOrder | pkg/filter/compile.go:103-149 | nothing compiles exactly when a rule is ill-formed or two have one id; what compiles is every rule that is no command, by ascending priority and then id |
| FilterAgree.RegistryFinds | pkg/filter/collect.go:28-82 | the registered path finds what the compiled set finds without its blocklist, in the same order |
| FilterAgree.EvaluatorsAgree | pkg/filter/registry.go:127-146 | the two evaluators agree exactly when the rules' findings pass the bound anyway, or no rule floods a leaf and the blocklist stands nowhere |
| FilterAgree.BlocklistLost | pkg/filter/registry.go:131-146 | a set and a leaf on which only the compiled evaluator reports the blocked literal |
| Luhn.LuhnValid | pkg/filter/primitive_luhn.go:70-85 | the loop from the right decides the positional sum of Annex B of ISO/IEC 7812-1 |
| Luhn.OneDigitDetected | pkg/filter/primitive_luhn.go:67-85 | changing one digit of a valid number of any length makes it invalid |
| Luhn.SwapDetected | pkg/filter/primitive_luhn.go:67-85 | exchanging two neighbours goes unnoticed exactly for equal digits and for 0 and 9 |
| Luhn.FindLuhnSpans | pkg/filter/primitive_luhn.go:22-54 | exactly the maximal runs with 13 to 19 digits, not all equal and valid, in order and disjoint |
| Luhn.SpacedReported | pkg/filter/primitive_luhn.go:22-54 | a number with any blanks and hyphens between its digits is reported as one span exactly when it is a valid one of 13 to 19 digits, not all the same |
| Luhn.SeparatorsAdjacent | pkg/filter/primitive_luhn.go:22-54 | a card number with two separators side by side is one that FindLuhnSpans reports |

## Left out

- The observer and abort path of the reassembler, which the buffered handler does not use.
- HTTP forwarding, compression, timeouts, goroutines and locks: every operation is sequential. A
  rule that panics or times out is an inspection without a result.
- `encoding/json`, `regexp`, the digest and its salt: functions given from outside. A text's
  tokens are any sequence, complete or cut short.
- Invalid UTF-8: Walk refuses it before anything else.
- The writer's ReplaceFunc is an argument of Feed instead of a field; a restored secret is never
  empty.
- RoundTripLaw.RedactRestore: asks that the redacted strings are read as the strings they were;
  RereadLaw.RedactReread treats the rest. A snapshot is any list of the reverse map's entries; the
  order by length does not matter under the hypotheses.
- RereadLaw.RedactReread: asks, as the round trip does, that nothing mapped is left once the
  strings are restored. A placeholder that ends up in a key of a re-read document is left to the
  closing replacement over the whole body and is outside the law.
- SseHistory.HistoryReads: says what forms a string may leave in, not which one each takes;
  SseSplit.ChannelRestored does for the step that completes a placeholder.
- SseCarry.EveryRun: what is bounded is the accumulator, as Held counts it; segments queued
  behind a pending one are not counted by the code either.
- LensPut.LevelPut: deleting text asks that ASCII text or the end follows, because two unpaired
  surrogates could otherwise join; the reassembler deletes at the end only.
- WalkLaws.DocumentWalk: the literal of a number, boolean or null is opaque text.
- Replace.Layout.Commit: the temporary file behind an atomic write is not one of the four files;
  a write is done, refused or cut off before it shows.
- FilterRegistry.Registry.Register: nil rules and the labels of the errors; a failure is one
  value.
- Filter.Evaluate: the truncation of a primitive's input to its byte budget is part of the
  detector function.
- The command line, configuration, rule synchronisation, revocation and the remaining detectors.
