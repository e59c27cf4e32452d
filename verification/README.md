# Safeguard: a verified model of redaction, streaming, chunking and quotas

This project models three parts of the repository and proves what they promise.

**Redaction.** Detectors find spans in a text, overlapping spans are merged into clusters
with the strongest action, and clusters with action Redact are replaced by
`[REDACTED:label]` (`Findings`, `Clustering`, `Splicing`, `SpliceLaws`, `Detection`,
`FindingOrder`, `Scanning`, `AtRest`, `DeepScanning`, `Entities`, and `EmptySpans` for
entities that are empty). Texts are UTF-8 byte sequences with the character boundaries of
section 4 of RFC 3629 (`Utf8`, `Encoding`).

**Streaming redaction.** The same, incrementally: a server-sent event stream (the `\n\n` and
`data:` subset of section 9.2.5 of the WHATWG HTML Standard) is split into events, model
text is buffered, and every release cuts the buffer at a point where nothing that is found
is cut (`Releasing`, `Sse`, `SseMachine`). The theorems are about whole runs: what is let
out (`Streaming`, `NoLeak`, `SseContent`), when it is what redacting the whole text would
give (`SameAsBatch`), and that network chunking and policies change nothing else (`SseRun`,
`SseFrames`, `SseNames`, `SseEvents`). Detectors are abstract, under the contract of
`find_iter` (`Patterns` shows that any pattern over characters meets it). Three shipped
patterns are taken through all of it: the Social Security Number (`Ssn`, `SsnStreaming`,
`SsnDeltas`, `SsnRuns`), whose matches are always masked and for which it is exact when
streamed and stored text are the same, and two whose matches have no greatest length, for
which it is exact when one is let out (`AnchoredPatterns`): the credit card (`Card`,
`CardStreaming`) and the email address (`Email`). What each of the three takes is the
preferred match of its regular expression (`Regexes`, `PatternRegexes`). `Outbound` and
`HeldTail` are about which policies affect a response and how much of it is held back.

**Chunking and quotas.** The overlapping chunker for embeddings (`Chunking`, `ChunkOrder`),
and the daily quota gate with concurrent requests on one shared counter (`Plan`, `Quota`,
`Expiry`).

Code that changes state in place is a class or a method with loops, proved against a
specification function; the lemmas are about those functions.

## Where the code and its documentation differ

The model follows the code in each of these.

- The tail held back while streaming is documented as 64 characters; the code counts bytes
  (`services/gateway/src/stream_dlp.rs:18-20`, `:196`). It is 64 characters exactly when the
  last 63 bytes are ASCII (`HeldTail.TailCharacters`), and 32 for two-byte characters
  (`HeldTail.AccentsHeld`).
- Only Redact policies are documented to affect a response; a release masks every merged
  finding whatever its action, since a scan result carries no actions
  (`services/gateway/src/stream_dlp.rs:11`, `:215-219`). The two agree exactly when no
  finding is from a Block policy and every other one is joined by overlaps to one from a
  Redact policy (`Outbound.ReleaseMasksAsScan`); with a Flag policy beside a Redact policy
  they do not (`Outbound.FlaggedIsMasked`).
- The tail is documented to keep matches from being emitted partially. That holds for
  matches that have, with the context they need, at most 65 bytes
  (`NoLeak.MatchNotLeaked`); a longer one is safe exactly when at every delta what has
  arrived of it is itself found and reaches into the tail (`NoLeak.MaskedIffHeld`,
  `AnchoredPatterns.MaskedIff`). A card number with 70 spaces behind its first digit is let
  out (`CardStreaming.SpacedLetOut`), and so is the front of an address with more than 64
  letters before the `@` (`Email.LongNameLetOut`).
- A release starts a new text for the detectors, so `\b` holds at its left edge. Streaming
  can therefore mask what at-rest redaction leaves alone (`SsnDeltas.StreamingCanMaskMore`),
  exactly at the delta ends that `SsnDeltas.StreamedIsStoredIff` names.
- The stream is documented to redact model text. An unterminated last event is forwarded as
  it is, unscanned (`services/gateway/src/stream_dlp.rs:76-80`), so its text reaches the
  client unmasked (`SseContent.TailGoesUnmasked`, `SsnRuns.TailNumberUnmasked`) and its
  `[DONE]` is followed by another (`SseRun.UnterminatedDoneTwice`); the exact conditions are
  `SseContent.OnlyStreamedIff` and `SseRun.OneDoneAtEnd`.
- The chunker is documented not to cut words and to repeat `overlap` characters
  (`crates/embed/src/lib.rs:128-130`). An end cuts a word when the window is all word behind
  its first character, so a word as long as the window can be cut
  (`Chunking.EndCutsIff`, `Chunking.WordOfWindowCut`); with an overlap a start cuts short
  words too (`Chunking.StartCutsIff`, `Chunking.ShortWordCut`). Without overlap no word is
  cut exactly when no window is all word (`Chunking.CutsNoneIff`). The `overlap` characters
  are repeated exactly when they are at most half the window and fewer than the window
  before has (`Chunking.OverlapRepeatedIff`, with `Chunking.TwoRepeated` as an input where
  they are not).
- In a deep scan the regex findings are documented to stay authoritative for Flag, and
  entities that overlap one to be dropped (`crates/dlp/src/lib.rs:183-184`, `:190-191`). An
  empty entity at the start of a finding does not overlap it and is merged into it, which
  turns Flag into Redact (`DeepScanning.EmptyEntityRaises`); a deep scan only adds its
  entities exactly when `DeepScanning.OnlyAddsIff` says.
- `next_utc_midnight` is documented for any time; for a time strictly inside a day before
  1970 the truncating division skips one midnight (`Plan.NextMidnightExact`,
  `Plan.SkippedMidnight`).

## Model

| member | source | states |
|---|---|---|
| Findings.DedupeFindings | crates/dlp/src/lib.rs:142-163 | the in-place merge, its early return for fewer than two findings included, computes the clusters of the findings; `MergeIsClustering` and what follows say what those are |
| Findings.MergeIsClustering | crates/dlp/src/lib.rs:147-161 | one pass over findings in leftmost-widest order gives a clustering, said without an algorithm: output in order and disjoint, every finding inside an output span, and every output span starts at a finding (whose label it has, the widest one starting there), ends at a finding, cannot be split at an interior point without cutting a finding, and has the strongest action among its members |
| Clustering.ClustersAreClustering | crates/dlp/src/lib.rs:142-163 | the same for findings in any order, before the sort |
| Clustering.InExactlyOne | crates/dlp/src/lib.rs:134-141 | every finding lies in exactly one merged span |
| Clustering.SameBytes | crates/dlp/src/lib.rs:134-141 | the merged spans cover exactly the bytes the findings cover |
| Clustering.InteriorIffCrossed | crates/dlp/src/lib.rs:154-160 | a position is strictly inside a merged span exactly when it is strictly inside a finding, so touching spans stay apart |
| Clustering.ComponentsOfOverlap | crates/dlp/src/lib.rs:134-141 | two findings end up in the same merged span exactly when a chain of strictly overlapping findings joins them: the merged spans are the connected components of overlap |
| Clustering.ClusteringUnique | crates/dlp/src/lib.rs:142-163 | a clustering is determined by the set of findings: spans and actions always, labels too when at every start of a merged span the widest findings agree in label |
| Clustering.OrderIndependent | crates/dlp/src/lib.rs:78-97 | neither the order nor the multiplicity of findings, and so neither the order of policies nor of patterns, changes the merged spans and actions |
| Clustering.FirstCandidateLabels | crates/dlp/src/lib.rs:147-161 | in any vector, of the widest findings that start where a merged span starts, the one that comes first gives the label |
| Clustering.LabelsFixedIff | crates/dlp/src/lib.rs:142-163 | reordering and repeating the findings changes nothing at all, labels included, exactly when at every start of a merged span all the widest findings have the same label |
| Clustering.Idempotent | crates/dlp/src/lib.rs:142-163 | merging twice is merging once |
| Clustering.ClustersSplit | crates/dlp/src/lib.rs:142-163 | at a point no finding crosses, merging works on each side by itself, labels and their tie-breaking by the stable sort included |
| Clustering.ClustersMapped | crates/dlp/src/lib.rs:142-163 | merging commutes with any renaming that respects the comparator and the widening, such as forcing actions or moving spans |
| Splicing.ReplaceExtends | services/gateway/src/stream_dlp.rs:214-219 | replacing the leftmost span in a text already edited to its right is always a valid edit and gives the left-to-right splice with that span added |
| Splicing.EditStep | crates/dlp/src/lib.rs:111-115 | one turn of the right-to-left loop: the length guard, evaluated on the text edited so far, holds exactly for the spans that end inside the original text |
| Splicing.ApplyRedactions | crates/dlp/src/lib.rs:103-117 | filter, stable sort by descending start and in-place edits give the left-to-right splice of the Redact findings, empty ones included; every `replace_range` is in bounds and on character boundaries |
| Splicing.EditsOfSeparated | crates/dlp/src/lib.rs:104-110 | for findings that are not empty those edits are the Redact findings in their order |
| Splicing.EditsSplit | crates/dlp/src/lib.rs:104-110 | findings that start further right are edited behind the others |
| Splicing.EditsTogether | crates/dlp/src/lib.rs:104-110 | of findings that start together, as empty ones can, the last comes first |
| SpliceLaws.SpliceLength | crates/dlp/src/lib.rs:103-117 | the result has the length of the input plus, for every span, the token length minus the span length |
| SpliceLaws.SpliceKeepsTheRest | crates/dlp/src/lib.rs:103-117 | every byte outside the spans survives, moved only by the tokens in front of it |
| SpliceLaws.SpliceTokens | crates/dlp/src/lib.rs:113 | in place of every span stand the ten bytes of `[REDACTED:`, then exactly the bytes of its label, then `]`, moved only by what the spans before it gained or lost |
| SpliceLaws.ReplacedIff | crates/dlp/src/lib.rs:103-117 | a text is the splice exactly when it has the right length, every byte outside the spans at its place, and these bytes in place of every span: nothing else meets that |
| SpliceLaws.SpliceJoin | services/gateway/src/stream_dlp.rs:213-222 | splicing a text piece by piece, cut where no span crosses, is splicing it as a whole |
| SpliceLaws.SpliceWellFormed | crates/dlp/src/lib.rs:103-117 | the result of splicing a valid UTF-8 string on character boundaries is a valid UTF-8 string |
| Utf8.WellFormedSplit | services/gateway/src/stream_dlp.rs:213-221 | a valid string cut at a character boundary leaves two valid strings, in the grammar of section 4 of RFC 3629 |
| Utf8.SnapIsClose | services/gateway/src/stream_dlp.rs:205-207 | snapping down to a character boundary moves back by at most three bytes |
| Encoding.WellFormedIff | services/gateway/src/stream_dlp.rs:205-207 | a text is a valid string exactly when it encodes a sequence of Unicode scalar values, by the table of section 3 of RFC 3629 |
| Encoding.EncodedIsWellFormed | crates/embed/src/lib.rs:140-141 | and its characters are the encodings of those values, one by one |
| Encoding.EncodedOnce | crates/embed/src/lib.rs:140-141 | two lists of values with the same encoding are the same |
| Detection.CollectFindings | crates/dlp/src/lib.rs:73-100 | collects the matches of every pattern of every enabled policy in order, and `blocked` holds exactly when one of them came from a Block policy |
| Detection.LookupIs | crates/dlp/src/lib.rs:80 | the search gives the detector that has the key while none before it in the table has, and nothing exactly when none has it |
| Detection.Collected | crates/dlp/src/lib.rs:78-97 | a finding is collected exactly when an enabled policy has a pattern and the finding is a match, with its label and the action of the policy, of the detector at the first index of the table with that key |
| FindingOrder.CollectedInOrder | crates/dlp/src/lib.rs:78-97 | every match of every pattern of every enabled policy is collected once, in the order of the policies, then of the patterns, then of the matches |
| FindingOrder.OrderIsExact | crates/dlp/src/lib.rs:78-97 | and no other list of findings is in that order and complete |
| Scanning.Scan | crates/dlp/src/lib.rs:170-179 | collect, merge and edit give the text, the findings and the flag of the specification |
| Scanning.Finish | crates/dlp/src/lib.rs:215-223 | the common end of `scan` and `scan_deep`, for findings that may be empty |
| Scanning.OutcomeReplaced | crates/dlp/src/lib.rs:215-218 | byte by byte, the resulting text is the input with the edited spans inside it replaced by their labels in brackets; findings may be empty or end past the input |
| Scanning.OutcomeOf | crates/dlp/src/lib.rs:170-179 | when no finding is empty the masked spans are the merged Redact findings |
| EmptySpans.ClustersLined | crates/dlp/src/lib.rs:142-163 | merging findings some of which are empty leaves them in order and apart; where two start together both are empty |
| EmptySpans.ClustersWithEmpty | crates/dlp/src/lib.rs:142-163 | when no empty finding stands inside another, merging gives the merged findings of the others, each with its action raised if an empty Redact finding stands at its start, and the empty ones at whose place no other finding starts |
| Scanning.BlockedIffBlockCluster | crates/dlp/src/lib.rs:91-93 | the request is blocked exactly when some merged span has action Block |
| Scanning.RedactMatchesAreMasked | crates/dlp/src/lib.rs:170-179 | unless blocked, every match of every enabled Redact policy lies whole inside one masked span |
| Scanning.MaskHasRedactFinding | crates/dlp/src/lib.rs:103-107 | every masked span contains a Redact finding |
| Scanning.OnlyFindingsAreMasked | crates/dlp/src/lib.rs:103-117 | every masked byte belongs to a finding |
| Scanning.ScanKeepsTheRest | crates/dlp/src/lib.rs:170-179 | for every input and policies: byte by byte, the output is the input with each masked span replaced by its label in brackets, and it is valid UTF-8 |
| AtRest.RedactForStore | services/control-plane/src/routes/conversations.rs:52-59 | forcing every action to Redact in place and scanning stores the text with every merged span masked |
| AtRest.MaskListForced | services/control-plane/src/routes/conversations.rs:54-57 | forcing actions changes neither clustering nor labels: the spans masked are all merged spans of the unforced scan |
| AtRest.StoredMasksEveryMatch | services/control-plane/src/routes/conversations.rs:50-59 | in what is stored every match of every enabled policy is masked whole, Block and Flag policies included |
| AtRest.StoredReplaced | services/control-plane/src/routes/conversations.rs:52-59 | what is stored is, byte by byte, the text with every merged span replaced by its label in brackets |
| DeepScanning.AnyOverlap | crates/dlp/src/lib.rs:205-207 | the entity is dropped exactly when it overlaps a finding or an entity taken before |
| DeepScanning.AcceptEntities | crates/dlp/src/lib.rs:202-211 | the loop pushes the accepted entities, of which the next rows say which they are |
| Entities.AcceptedExactly | crates/dlp/src/lib.rs:202-211 | an entity is accepted exactly when it overlaps no finding and no accepted entity before it; the accepted ones keep their order |
| Entities.PicksAreExact | crates/dlp/src/lib.rs:202-211 | and only one choice of entities meets that |
| Entities.EntityFate | crates/dlp/src/lib.rs:202-217 | among the merged findings of a deep scan every accepted entity lies in one with action Redact, and is that finding unless it is empty; every dropped one overlaps one |
| Entities.CoverIsEdited | crates/dlp/src/lib.rs:217-218 | and that finding, if it ends inside the text, is replaced by its label |
| DeepScanning.ScanDeep | crates/dlp/src/lib.rs:192-224 | the deep scan as a program: collect, ask the sidecar unless blocked, accept, merge, edit; for all entities on which the edits do not panic, empty ones included |
| DeepScanning.AcceptedExtends | crates/dlp/src/lib.rs:203-210 | accepted entities are disjoint from all regex findings and from each other |
| DeepScanning.EntityOutsideClusters | crates/dlp/src/lib.rs:214-216 | an accepted entity shares no byte with a merged regex finding, and an empty one stands inside none |
| DeepScanning.ClusterSurvives | crates/dlp/src/lib.rs:188-216 | every merged regex finding survives with its span and label; its action changes, to Redact, exactly if an accepted empty entity stands at its start |
| DeepScanning.DeepMerged | crates/dlp/src/lib.rs:192-216 | the merged findings of a deep scan: those, the accepted entities that are not empty, and the empty ones at whose place no other finding starts |
| DeepScanning.OnlyAddsIff | crates/dlp/src/lib.rs:188-216 | a deep scan only adds its entities to the merged findings exactly when no accepted empty entity stands where another finding starts |
| DeepScanning.EmptyEntityRaises | crates/dlp/src/lib.rs:126-132 | an empty entity at the start of a Flag finding: the finding becomes a Redact finding |
| DeepScanning.DeepExtendsScan | crates/dlp/src/lib.rs:179-224 | a deep scan blocks exactly when the scan does; whatever the scan masks it masks; its merged findings are those of the scan plus the accepted entities under exactly that condition; without a client, on an error or when blocked the result is the scan |
| Releasing.PullBackSafe | services/gateway/src/stream_dlp.rs:198-203 | one pass of pull-back over findings in order leaves none across the target, and moves it only to the start of a finding that reached past it |
| Releasing.CutSafe | services/gateway/src/stream_dlp.rs:192-207 | after snapping to a character boundary no finding straddles the cut, and exactly the findings before the pulled-back target are settled |
| Releasing.HeldBack | services/gateway/src/stream_dlp.rs:184-221 | after a release without flush at most 67 bytes stay in the buffer, or it starts exactly with a finding that reaches into the last 64 |
| Releasing.ReleaseWellFormed | services/gateway/src/stream_dlp.rs:221 | what stays buffered is valid UTF-8 |
| Releasing.FlushIsAtRest | services/gateway/src/stream_dlp.rs:186-223 | a flush empties the buffer and emits the string that at-rest redaction would store |
| Streaming.StreamIsSplice | services/gateway/src/stream_dlp.rs:184-223 | for every split of a text into deltas, the concatenated releases are the whole text with the masked spans replaced: nothing lost, repeated or reordered |
| Streaming.StreamReplaced | services/gateway/src/stream_dlp.rs:184-223 | and so, byte by byte, the whole text with each masked span replaced by its label in brackets |
| NoLeak.MasksNeverCut | services/gateway/src/stream_dlp.rs:185-185 | no masked span straddles a cut: a finding is never let out in pieces |
| NoLeak.MaskedIffHeld | services/gateway/src/stream_dlp.rs:18-20 | a match of any length that is found in every context, and before which the start of the buffer makes no difference, is masked whole exactly when at every delta that ends before it does, more than 64 bytes after its start, the text received so far has a finding from its start on into the last 64 bytes |
| NoLeak.MatchNotLeaked | services/gateway/src/stream_dlp.rs:3-7 | a match of any length that survives cuts to its left and beyond its right context is masked whole and never cut, whatever the other detectors do, if it has at most 65 bytes with that context or what has arrived of it is always a match that reaches the tail |
| NoLeak.NothingLeaks | services/gateway/src/stream_dlp.rs:3-7 | for local detectors and every split into deltas: every match of the whole text lies inside a masked span of what is emitted, and no cut goes through one |
| SameAsBatch.StreamingIsAtRest | services/gateway/src/stream_dlp.rs:184-223 | when no cut changes what the detectors see after it, streaming masks exactly the findings of the whole text and emits exactly what at-rest redaction of the whole text stores |
| SameAsBatch.EverySplitIsAtRest | services/gateway/src/stream_dlp.rs:184-223 | for a text in which no cut at any character boundary changes what the detectors see after it, this holds for every split into deltas |
| SameAsBatch.SplitDoesNotMatter | services/gateway/src/stream_dlp.rs:162-166 | and two splits of such a text into deltas emit the same bytes |
| Patterns.RegexIsDetector | crates/dlp/src/lib.rs:83 | searching leftmost first, each time from the end of the last match, with any pattern over characters meets the contract of `find_iter` |
| Patterns.FindFromExact | crates/dlp/src/lib.rs:83 | when matches of the pattern cannot overlap, the search finds all places where it matches |
| PatternRegexes.SsnIsRegex | crates/dlp/src/rules.rs:34 | what the matcher of the Social Security Number takes is the preferred match of its regular expression, for which `Regexes.Ends` tries the alternatives in their order |
| PatternRegexes.CardIsRegex | crates/dlp/src/rules.rs:33 | the same for the credit card, with its lazy separators inside a greedy repetition |
| PatternRegexes.EmailIsRegex | crates/dlp/src/rules.rs:27 | the same for the email address, with three greedy runs |
| PatternRegexes.EmailClasses | crates/dlp/src/rules.rs:27 | the character classes of that expression, byte by byte |
| PatternRegexes.CardClasses | crates/dlp/src/rules.rs:33 | the separators of the credit card, byte by byte |
| Ssn.SsnIsDetector | crates/dlp/src/rules.rs:34 | the Social Security Number pattern over characters, with any Unicode classes for digits and word characters, meets the contract of `find_iter` |
| Ssn.NoOverlap | crates/dlp/src/rules.rs:34 | its matches never overlap |
| Ssn.FindExact | crates/dlp/src/rules.rs:34 | its matches are all places where the pattern matches: none is hidden by an earlier one |
| Ssn.SsnIsLocal | crates/dlp/src/rules.rs:34 | it is local, so the no-leak theorem applies to it |
| Ssn.ExactIffNoFalseStart | crates/dlp/src/rules.rs:34 | cutting the text changes its matches exactly when the cut separates a match-like run of digits from a word character on its left |
| SsnStreaming.SameIffNoFalseCut | services/gateway/src/stream_dlp.rs:184-223 | with the Social Security Number policy the streamed text is the stored text exactly when no release cuts between such a run and the word character |
| SsnDeltas.StreamedIsStoredIff | services/gateway/src/stream_dlp.rs:184-223 | said before the run, of the text and of where its deltas end: the streamed text is the stored text exactly when no delta ends so that the last 64 bytes (snapped to a character) begin with such a run that lies inside no match |
| SsnDeltas.EverySplitIff | services/gateway/src/stream_dlp.rs:184-223 | and for every split of a text exactly when it has no character boundary where a delta could end so |
| SsnStreaming.FalseCutMasksMore | services/gateway/src/stream_dlp.rs:184-223 | with such a cut every finding of the whole text is still masked as it is, the run behind the cut is masked too, and there are strictly more masked spans |
| SsnDeltas.StreamingCanMaskMore | services/gateway/src/stream_dlp.rs:184-223 | `A123-45-6789` and 53 spaces in one delta: streamed and stored text differ |
| SsnRuns.RunStoredIff | services/gateway/src/stream_dlp.rs:63-103 | in a whole run with this policy the client reads what at-rest redaction stores of the segments, and then the text of an unterminated tail, exactly when no segment has such a delta |
| SsnRuns.TailNumberUnmasked | services/gateway/src/stream_dlp.rs:76-80 | an event with the content `123-45-6789` and no blank line behind it: the client reads the number |
| Card.CardIsDetector | crates/dlp/src/rules.rs:33 | the credit card pattern meets the contract of `find_iter`; its matches have no greatest length and, the separators being lazy, end with the first of the digits thirteen to sixteen that no word character follows |
| Card.StopsAtThirteen | crates/dlp/src/rules.rs:33 | a separator behind the thirteenth digit ends the match, whatever comes then |
| AnchoredPatterns.MaskedIff | services/gateway/src/stream_dlp.rs:18-20 | for any pattern and a match at a place where it depends on what follows alone: it is masked whole exactly when every delta that ends inside it, more than 64 bytes after its start, has already brought a match from that start on that reaches into the last 64 bytes |
| AnchoredPatterns.AlwaysMaskedIff | services/gateway/src/stream_dlp.rs:18-20 | and however its text is split exactly when that holds at every character boundary |
| Card.CardIsAnchored | crates/dlp/src/rules.rs:33 | the credit card pattern is such a pattern at every place that is not behind a word character, nor behind a digit with only separators in between |
| CardStreaming.CardMaskedIff | services/gateway/src/stream_dlp.rs:18-20 | so a card number at such a place is masked whole exactly when it is held at every delta in that sense |
| CardStreaming.CardAlwaysMaskedIff | services/gateway/src/stream_dlp.rs:18-20 | and however its text is split exactly when it is held at every character boundary |
| CardStreaming.LetOut | services/gateway/src/stream_dlp.rs:192-221 | an ASCII text whose first delta, and whose rest with the tail of 64 bytes in front, have fewer than thirteen digits each is let out as it is |
| CardStreaming.SpacedLetOut | services/gateway/src/stream_dlp.rs:18-20 | `4`, 70 spaces and twelve digits, split behind the spaces: at-rest redaction masks it whole, the stream emits it unmasked |
| Email.EmailIsAnchored | crates/dlp/src/rules.rs:27 | the email pattern is such a pattern at every place behind no word character and no character of an address |
| Email.LongNameLetOut | services/gateway/src/stream_dlp.rs:18-20 | an address with more than 64 letters in front of the `@`, when the first delta ends with them: all but the last 64 are emitted and then `[REDACTED:EMAIL]`, although the whole address is one finding |
| Outbound.PassThroughIsScan | services/gateway/src/stream_dlp.rs:22-28 | without an enabled Redact policy that has patterns, passing a stream through unscanned gives the text that `scan` would give |
| Outbound.OutboundIff | services/gateway/src/stream_dlp.rs:22-28 | there is such a policy exactly when for some detectors some text has a finding with action Redact |
| Outbound.ReleaseMasksAsScan | services/gateway/src/stream_dlp.rs:186-219 | a flush masks the spans that `scan` masks exactly when no finding is from a Block policy and each is joined by a chain of overlaps to one from a Redact policy |
| Outbound.FlaggedIsMasked | services/gateway/src/stream_dlp.rs:215-219 | `123-45-6789` with a Flag policy for it and a Redact policy that finds nothing: `scan` keeps it, a release sends `[REDACTED:SSN]` |
| HeldTail.TailCharacters | services/gateway/src/stream_dlp.rs:192-221 | unless a finding reaches over its start, the tail held back has at most 64 characters, and has 64 exactly when the last 63 bytes are ASCII |
| HeldTail.AccentsHeld | services/gateway/src/stream_dlp.rs:192-221 | of a long text of two-byte characters, 32 characters are held back |
| Sse.EventsOfConcat | services/gateway/src/stream_dlp.rs:108-116 | draining after every received piece finds the events, and leaves the rest, that draining once would |
| Sse.FramingLossless | services/gateway/src/stream_dlp.rs:110-112 | events, their terminators and the leftover give the received bytes back |
| SseEvents.FramingExact | services/gateway/src/stream_dlp.rs:110-112 | the events and the leftover are the one way to write the bytes as pieces that end with their first blank line and a rest without any |
| SseEvents.WrittenIs | services/gateway/src/stream_dlp.rs:119-137 | what an event says that is written as `data:`, blanks, a payload and blanks, whatever lines follow |
| SseEvents.WrittenDoes | services/gateway/src/stream_dlp.rs:125-181 | and what it does: `[DONE]` flushes and ends; a payload that does not parse, or has neither content nor a finish reason, is forwarded; content goes to the buffer and one frame with what that releases is sent; a finish reason flushes, and its frame comes last |
| SseEvents.UnwrittenDoesNothing | services/gateway/src/stream_dlp.rs:120-122 | an event without a data line changes and sends nothing |
| Sse.OtherLinesSkipped | services/gateway/src/stream_dlp.rs:119-122 | lines without the `data:` prefix are skipped, and an event with none of them is ignored |
| Sse.DataLineTaken | services/gateway/src/stream_dlp.rs:120-122 | the first `data:` line is the payload, without the carriage return of a `\r\n` |
| Sse.EventStepsConcat | services/gateway/src/stream_dlp.rs:108-116 | handling events in two batches is handling them in one |
| SseMachine.Redactor.constructor | services/gateway/src/stream_dlp.rs:52-61 | the initial state |
| SseMachine.Redactor.Release | services/gateway/src/stream_dlp.rs:186-223 | takes the cut prefix out of `pending`, emits it with the settled findings spliced, and conserves text: what was taken so far plus what is pending does not change |
| SseMachine.Redactor.ChooseCut | services/gateway/src/stream_dlp.rs:192-207 | the two loops compute the pull-back and the snap of the specification |
| SseMachine.Redactor.EditPrefix | services/gateway/src/stream_dlp.rs:212-219 | the unguarded right-to-left edits are all valid and give the splice of the prefix |
| SseMachine.Redactor.ProcessEvent | services/gateway/src/stream_dlp.rs:118-182 | one event changes state and output as the step function says, and accepts exactly the `delta.content` of the event |
| SseMachine.Redactor.ProcessChunk | services/gateway/src/stream_dlp.rs:144-181 | the same for the part of it that handles a parsed chunk |
| SseMachine.Redactor.FeedFrame | services/gateway/src/stream_dlp.rs:162-166 | accepts model text, releases what is settled and frames it; the conservation invariant holds after it |
| SseMachine.Redactor.FlushFrame | services/gateway/src/stream_dlp.rs:126-130 | flushes the buffer into one content frame, none when nothing is left |
| SseNames.EventSends | services/gateway/src/stream_dlp.rs:125-181 | every frame of model text that an event sends has text and carries the id and model known with that event, and all of them come before what the event is itself replaced by |
| SseNames.FirstIsNamed | services/gateway/src/stream_dlp.rs:144-149 | those are the first id and the first model that the events up to it give, and empty while none was given |
| SseNames.RunSends | services/gateway/src/stream_dlp.rs:125-181 | a whole run, event by event: model text under the first id and model that the events up to it give, then the frame of its own, finish frames under the same names; and at the end the text held back under the names of all events, the unterminated tail, and `[DONE]` |
| SseEvents.RunSendsOnly | services/gateway/src/stream_dlp.rs:84-92 | without a transport error a run yields no failure and no empty output |
| SseEvents.RunBreaks | services/gateway/src/stream_dlp.rs:93-96 | on a transport error before any `[DONE]`: the frames of the events so far, then the error, and nothing more, so what is held back is not sent |
| SseMachine.Redactor.DrainEvents | services/gateway/src/stream_dlp.rs:108-116 | removes all complete events from `raw` in place and handles each in order; the invariant that accepted text is taken text plus pending holds throughout |
| SseMachine.Redactor.Poll | services/gateway/src/stream_dlp.rs:63-103 | each poll yields the next item of the run, and `None` exactly at its end; it pulls from the upstream until there is something to send; the text accepted so far and the text the rest of the run brings stay the same together |
| SseRun.RunIsWholeRun | services/gateway/src/stream_dlp.rs:85-92 | however the upstream is chunked, the run sends the frames it would send for all text at once |
| SseRun.ChunkingIsInvisible | services/gateway/src/stream_dlp.rs:85-92 | two splits of the same bytes at character boundaries send the same frames |
| SseRun.RunAcceptsAll | services/gateway/src/stream_dlp.rs:85-92 | the text a run accepts is what the events of all received text bring, in order, however it is chunked |
| SseRun.OneDoneAtEnd | services/gateway/src/stream_dlp.rs:63-83 | every run without a transport error ends with a `[DONE]` frame; the client reads it once exactly when a terminated event brought it or the unterminated tail does not decode to it |
| SseRun.TailIsForwarded | services/gateway/src/stream_dlp.rs:76-81 | an upstream of one unterminated text is forwarded as it is, whatever the policies |
| SseRun.TailIsAnEvent | services/gateway/src/stream_dlp.rs:78-79 | with the blank line added it reads as one complete event |
| SseRun.UnterminatedDoneTwice | services/gateway/src/stream_dlp.rs:76-81 | `data: [DONE]` without its blank line: the client reads `[DONE]` twice |
| SseRun.LaterChunkIgnored | services/gateway/src/stream_dlp.rs:65-67 | after `[DONE]` later chunks are not read |
| SseRun.SilentIff | services/gateway/src/stream_dlp.rs:118-181 | events send nothing exactly when each is ignored, or brings text without a finish and no release cuts anything off |
| SseRun.AfterDone | services/gateway/src/stream_dlp.rs:110-114 | what follows `[DONE]` in the same chunk is still processed; sending it in the next chunk instead makes no difference exactly when it is silent, starting from an empty buffer if `[DONE]` came last |
| SseRun.SecondDoneInChunk | services/gateway/src/stream_dlp.rs:110-114 | two terminated `[DONE]` in one chunk and in two: the runs differ |
| SseRun.NothingHeldAtEnd | services/gateway/src/stream_dlp.rs:125-175 | after a finish frame or `[DONE]` the buffer is empty |
| SseContent.SegmentsHoldWhatEventsBring | services/gateway/src/stream_dlp.rs:118-182 | the segments of a run, from flush to flush, hold exactly the text its events bring, in order |
| SseContent.RunStreamsItsSegments | services/gateway/src/stream_dlp.rs:63-182 | what a client reads, forwarded frames included, is the segments, each streamed from an empty buffer, and then the text of an unterminated tail |
| SseContent.OnlyStreamedIff | services/gateway/src/stream_dlp.rs:76-80 | it is only what was streamed exactly when a terminated `[DONE]` came or the unterminated tail brings no text |
| SseContent.TailGoesUnmasked | services/gateway/src/stream_dlp.rs:76-80 | a content event without its blank line: the client reads its text as it is, whatever the policies |
| SseContent.RunLeaksNothing | services/gateway/src/stream_dlp.rs:1-7 | with local detectors, over whole runs and any network chunking, no segment lets out a byte of a match, and besides the segments the client reads only the text of an unterminated tail |
| SseContent.RunStoresItsSegments | services/gateway/src/stream_dlp.rs:1-7 | when no cut of a segment changes what the detectors see after it, what the client reads is, segment by segment, what at-rest redaction stores, and then the text of an unterminated tail |
| SseFrames.OthersPassThrough | services/gateway/src/stream_dlp.rs:9-10 | all frames but the releases of model text are forwarded unchanged and in order, finish frames carry the first id and model seen so far, and unless a terminated `[DONE]` came, an unterminated tail follows as it is and then `[DONE]` |
| SseFrames.PoliciesTouchOnlyContent | services/gateway/src/stream_dlp.rs:9-10 | policies and detectors change nothing but the releases of model text |
| Chunking.EndsAtWord | crates/embed/src/lib.rs:148-161 | the end of a window is the one place that is in reach and, unless the text ends within reach, has whitespace at it with none behind it in reach, the first character aside, or is as far as it goes when there is no such whitespace |
| Chunking.EndCutsIff | crates/embed/src/lib.rs:148-161 | an end cuts a word exactly when text follows the window, there is no whitespace behind its first character up to and with the one after it, and it has more than one character or that one is no whitespace |
| Chunking.CutsNoneIff | crates/embed/src/lib.rs:147-172 | without overlap no window starts or ends inside a word exactly when that holds for none of the windows |
| Chunking.ShortWordsWhole | crates/embed/src/lib.rs:128-130 | so none does when every word is shorter than the window |
| Chunking.NextWindow | crates/embed/src/lib.rs:147-172 | each window starts where the one before says |
| Chunking.OverlapRepeatedIff | crates/embed/src/lib.rs:129-137 | a window repeats `overlap` characters of the one before exactly when the overlap is at most half the size and the one before is longer than the overlap |
| Chunking.TwoRepeated | crates/embed/src/lib.rs:171 | `hello world again` in windows of eight with an overlap of three: the third window repeats two characters |
| Chunking.ShortWordsKept | crates/embed/src/lib.rs:128-130 | an end that cuts a word shows a word as long as the window, whatever the overlap |
| Chunking.StartCutsIff | crates/embed/src/lib.rs:171 | a start cuts a word exactly when there is no whitespace at it and before it, `overlap` characters before the last end or right behind the last start; without overlap it cuts where that end does |
| Chunking.WordOfWindowCut | crates/embed/src/lib.rs:153-161 | `a bbbbb c` in windows of five characters: the end of the second window cuts the word |
| Chunking.ShortWordCut | crates/embed/src/lib.rs:171 | `hello world again` in windows of eight with an overlap of three: the second window starts inside `hello` |
| Chunking.EndsAscend | crates/embed/src/lib.rs:148-171 | a later start inside a window never gives an earlier end |
| Chunking.WindowsChained | crates/embed/src/lib.rs:147-172 | starts strictly increase, ends never decrease, no gap opens, each start is at most the overlap before the previous end, and the last window ends at the end of the text |
| Chunking.FreshPartsGiveText | crates/embed/src/lib.rs:147-172 | what each window adds beyond the one before, concatenated, is the text |
| Chunking.FewShareAnEnd | crates/embed/src/lib.rs:147-172 | at most overlap + 1 windows share an end, so the count is bounded although ends can repeat |
| Chunking.ChunksCover | crates/embed/src/lib.rs:162-166 | every character of the trimmed text that is not whitespace is in a trimmed window that is kept |
| Chunking.ChunksSmall | crates/embed/src/lib.rs:162-166 | kept windows are not blank at either end and have at most `max_chars` characters |
| Chunking.EveryWordKept | crates/embed/src/lib.rs:131-174 | for every document and parameters, every character that is not whitespace lies in a stretch of the document that is one of the chunks |
| Chunking.ChunkSizes | crates/embed/src/lib.rs:131-174 | no chunk is empty and none is longer than `max(max_chars, 1)` |
| ChunkOrder.WindowsExact | crates/embed/src/lib.rs:145-172 | a list of windows is the one the loop runs through exactly when it starts at the front, each window ends where it should, the last one alone ends with the text, and each starts `overlap` before the end of the one before, but further on |
| ChunkOrder.ChunksInOrder | crates/embed/src/lib.rs:131-174 | the chunks are, in order, the windows of the trimmed document that are not all blank, each from its first to its last character that is no blank |
| Chunking.ChunkText | crates/embed/src/lib.rs:131-174 | the loop computes the chunks these lemmas are about |
| Chunking.ChooseEnd | crates/embed/src/lib.rs:148-161 | the code that chooses the end yields that place |
| Plan.NextMidnightExact | crates/proto/src/plan.rs:26-31 | the result is the least midnight strictly after now exactly when now is not strictly inside a day before 1970 |
| Plan.SkippedMidnight | crates/proto/src/plan.rs:28-31 | one second before 1970: the result is a day after the next midnight |
| Plan.LimitsByName | crates/proto/src/plan.rs:14-20 | 200 requests for the free plan and for no other, 20000 for the team plan and for no other, and no limit exactly for the rest |
| Plan.StatusReports | crates/proto/src/plan.rs:51-61 | a status has the plan and the count it was asked for, and the window it names ends at the next midnight exactly under the condition above |
| Plan.LimitsPositive | crates/proto/src/plan.rs:51-61 | a limited plan allows at least one request; `remaining` is present exactly when there is a limit, never negative, and adds up with `used` to the limit exactly while the limit is not passed |
| Quota.StepInv | services/gateway/src/middleware.rs:87-99 | every atomic step (increment, expiry, compare, decrement, time passing) of any request keeps: the counter is the places taken plus the over-limit increments not yet taken back, places never pass the limit, and the requests with a place hold the numbers from 1 up, each once |
| Quota.QuotaHolds | services/gateway/src/middleware.rs:87-112 | in every interleaving of any number of requests while the key lives: that balance, admitted requests never above the limit, and nobody turned away unless all places are taken |
| Quota.PlanPromise | services/gateway/src/middleware.rs:87-112 | in numbers: in every interleaving at most 200 requests of the free plan and 20000 of the team plan are let through, and of any other plan none is turned away |
| Expiry.ExpiryOfFirstUse | services/gateway/src/middleware.rs:88-92 | in every interleaving, from the expiry step of the request with count 1 on, the expiry is the clock at that step plus 90000 seconds; no later step moves it; without such a step there is none |
| Expiry.ExpirySetIff | services/gateway/src/middleware.rs:90-92 | the key has an expiry exactly when a request with count 1 is past its expiry step |
| Expiry.WaitDropsIff | services/gateway/src/middleware.rs:88-92 | time passing brings the counter to 0 and drops the expiry exactly when it reaches that clock plus 90000 seconds; otherwise it changes neither |
| Quota.FirstUseOnce | services/gateway/src/middleware.rs:88-92 | the count 1, on which the expiry is set, is given to at most one request, and to one as soon as a place is taken |
| Quota.CounterAtRest | services/gateway/src/middleware.rs:97-99 | once every request has its answer the counter is the smaller of the number of requests and the limit, and exactly as many are let through |
| Quota.KeyOutlivesDay | services/gateway/src/middleware.rs:85-92 | until the next midnight after its first use the key is never dropped: the counter is not reset inside its day |
| Quota.Gate.constructor | services/gateway/src/middleware.rs:83-87 | a day starts with no key: counter zero and no expiry |
| Quota.Gate.Incr | services/gateway/src/middleware.rs:89 | the increment as one atomic step on the shared counter |
| Quota.Gate.ExpireOnFirstUse | services/gateway/src/middleware.rs:90-92 | sets the expiry to 90000 seconds from now for the count 1, and leaves it alone for every other |
| Quota.Gate.Decide | services/gateway/src/middleware.rs:93-96 | compares the returned count, not the shared counter, with the limit of the plan |
| Quota.Gate.Decr | services/gateway/src/middleware.rs:97-99 | the compensation of a rejected request |
| Quota.Gate.Pass | services/gateway/src/middleware.rs:87-112 | a request that runs alone is admitted exactly when the counter is below the limit, moves the counter exactly then, sets the expiry exactly on an unused key, and reports the plan, its limit, the count it was given or the limit when it is turned away, what is left of the limit, and the next midnight, under the condition of `Plan.NextMidnightExact` |

## Left out

- The regular expression engine and the detector and pack tables: detectors are abstract functions under the contract of `find_iter` (successive, non-empty, in bounds, on character boundaries).
- Ssn.SsnIsDetector: the Unicode classes `\d` and `\w` are parameters of which only the ASCII part, and that digits are word characters, is fixed.
- CardStreaming.CardMaskedIff: not for a match behind a digit with only separators in between, since there an earlier run of digits, or what is left of one that was matched, takes part in where matches start.
- PatternRegexes.EmailIsRegex: letters are taken to be word characters, the two that case folding adds included, which they are.
- Of regular expressions `Regexes` has what the three are made of; a repetition whose body can take nothing is not covered.
- Email.EmailIsAnchored: letters are taken to be word characters, which they are; not for a match behind a word character, `@` or one of `.%+-`.
- The other patterns of the tables are covered by the theorems about any detector, but the hypotheses are not shown for each.
- DeepScanning.ScanDeep: entities that are taken and end inside the text must not end before they start and must be on character boundaries; on others the edit panics.
- SseRun.ChunkingIsInvisible: only for splits at character boundaries, since each received piece is decoded by itself with replacement characters, and only with `[DONE]` as the last event, as for `SseRun.OneDoneAtEnd` and the theorems of `SseContent`; `SseRun.AfterDone` has the other case.
- Quota.QuotaHolds: only while the key lives, 90000 seconds from its first use, and without Redis errors; a plan does not change during the day.
- The Presidio HTTP client: an oracle that is absent, fails or answers with spans.
- JSON parsing and printing, `trim` and lossy decoding are parameters of the stream (`Sse.Codec`), with the laws of `trim` and of decoding valid UTF-8 assumed of them; frames are values and not bytes, read back by the same decoding.
- `Sse.Chunk` has only the fields the code reads; what a chunk with content also carries is dropped by the code and not modelled.
- Async plumbing, the upstream HTTP call and back pressure: a run is a list of received pieces and at most one error.
- `usize` and `i64` overflow: lengths and counters are unbounded.
- `CollectMatches`, `CollectPolicy`, `ChooseCut`, `EditPrefix`, `FlushFrame`, `FeedFrame`, `ProcessChunk`, `ChooseEnd` and `Finish` are parts of functions that are one in the source.
- `pending`, `raw` and the merged findings are sequences held in fields and variables; slices into them are not shared.
- Authentication, organisations, SQL, retrieval, dashboards, headers and the rest of the gateway and control plane.
