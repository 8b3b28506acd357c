# OpenObscure core: a model and its proofs

This project models the algorithms of the privacy proxy `openobscure-core` that carry state, search or
arithmetic, and proves what they promise.

* **Entity decoder.** `Viterbi.dfy` fills the two tables and follows the backpointers; the decoder is optimal over all
  labellings, and which optimum it returns is fixed. `Tokenizer.dfy` and `CrfScanner.dfy` turn labels into byte spans.
* **Crash ring and journal.** `CrashBuffer.dfy` is the wrapping byte ring whose header is written last;
  `Journal.dfy` is the protocol that is read back from whatever window of it survived, with ids as `RequestIds.dfy` has them,
  and `JournalCrash.dfy` says exactly what is read after a crash inside a write and how long that lasts.
* **From a body to a sanitized body.** `CodeFence.dfy` masks code in place, `Clustering.dfy` joins overlapping spans by
  union-find, `Voting.dfy` settles each cluster, `TextScan.dfy` puts one text scan together. `JsonScan.dfy` walks a JSON
  tree with JSON nested in its strings; `JsonLeaves.dfy` says which strings it scans and in which order, `JsonMatches.dfy`
  and `JsonFindings.dfy` where what it reports stands, `JsonCoverage.dfy` exactly what it reports and protects,
  `JsonParallel.dfy` when threads do not show, and `HiddenNames.dfy` follows five bodies. `RequestBody.dfy` replaces match
  by match, `Json.dfy`, `JsonRewrite.dfy` and `Splice.dfy` put the new values back, `Sanitize.dfy` states the result for
  the whole way, each stage's guarantee being the next one's precondition, and `DottedKeys.dfy` follows bodies with keys
  that paths cannot express.
* **Boxes.** `Nms.dfy` shows the suppression array and the script's keep-list select the same; `BoxMatching.dfy` bounds the
  greedy matching behind precision and recall.
* **Generators and counters.** `HashTokens.dfy` covers whole runs of redaction tokens, `Latency.dfy` the bucketed
  percentile against the exact one, `LatencyRace.dfy` its atomic steps interleaved.

`dafny verify dfyconfig.toml` checks everything.

## How things are modelled

* Scores, confidences and coordinates are `real`. A text is a `string` with one `char` per byte of its UTF-8 form; only the
  tokenizer works on Unicode scalars, whose byte offsets are those of their UTF-8 form (`Tokenizer.ByteSliceIsEncoded`); the
  valid byte strings are exactly the encodings of texts (`Utf8.ValidIffEncoded`).
* What is not modelled is a parameter with the properties stated where it is used. Of these the repository defines the
  pattern, keyword, gazetteer, semantic and multilingual scanners, feature extraction and format-preserving encryption;
  libraries define SHA-256, the JSON parser, `str::trim` and UUID text.
* Detectors are taken to report spans of the text they see that lie on character boundaries and neither start nor end with
  a space, with confidences in [0, 1]. The keyword scanner does not always: it takes offsets in the lowercased text and
  slices the original with them (`keyword_dict.rs:64-126`), and lowercasing can change lengths. In "İ diabetes" the first
  letter grows from two bytes to three, so the keyword's span ends one byte past the end and the scan panics.
* Hash maps yield their entries in any order; nothing proved depends on it except through ties, which stay open.
* The library sort is insertion sort, proved sorted, stable and a permutation.

## Where code and documentation disagree

The model follows the code in each case.

* `fpe_unprotected_count` is documented as the matches left unprotected (`body.rs:49-50`), but failing closed also counts
  the ones it redacts; `RequestBody.CounterMeansPlaintextIff` gives the exact condition. The configuration promises that
  failing closed rejects the request (`config.rs:14`); the code redacts the match.
* The fallback of the token generator is said to guarantee uniqueness (`hash_token.rs:84-85`); it is not checked, and
  for every hash function some run gives two plaintexts one token (`HashTokens.SomeRunShares`).
  `HashTokens.RunInjectiveIffNoOverflow` is exact.
* The masker's comments say that the closing fence is masked and that `~~~` opens a fence (`hybrid_scanner.rs:618-641`);
  neither happens, see `CodeFence.ClosingFenceStays` and `CodeFence.NoBacktickNoMask`.
* The comment on recovered matches says they are compared with the raw text scan (`hybrid_scanner.rs:376`); they are
  compared with everything reported so far on any path, so a name can be missed (`HiddenNames.NestedNameMissed`). A name can
  also be missed because it is escaped in the outer string (`HiddenNames.EscapedNameMissed`), or because it is there twice
  (`HiddenNames.RepeatedNameMissed`). `JsonCoverage.ScanReportsIff` and `JsonCoverage.FoldReportsIff` are exact on what is
  reported at every depth, `JsonCoverage.ScanProtectsIff` on which values are protected wherever they occur.
* The scores `viterbi` returns are called marginals; they are prefix scores, see `Viterbi.Viterbi`.
* `precision_recall` pairs a box only if its overlap is above zero as well, which matters for thresholds of zero and below.
* A crash inside a journal write is meant to lose nothing but the torn line. It can also lose the oldest intact record
  (`JournalCrash.PendingRequestLost`) and read one that nobody wrote (`JournalCrash.CompletionForged`);
  `JournalCrash.TearIsHarmlessIff` is exact for every run, ring size and crash point up to a ring of bytes, and in the journal
  as it is opened there are no others (`JournalCrash.EveryTearReads`). Writing on erases the tear
  (`JournalCrash.TearIsErasedIff`).
* Paths are reversible only for keys that are non-empty and free of dots and opening brackets (`Json.PathRoundTripIff`).
  Under any other key a match is reported but its string never changes (`Sanitize.BadPlaceStays`). Five outcomes are shown:
  the body stays as it was (`DottedKeys.DottedNameStays`), the replacement lands in another string
  (`DottedKeys.OtherStringIsOverwritten`), its span ends inside a character there and the code panics
  (`DottedKeys.SpanInCharacterPanics`), or behind its end and it is skipped (`DottedKeys.SpanBehindEndIsSkipped`), or it is
  made on top of that string's own (`DottedKeys.TwinIsGarbled`). A string with good keys that no other's path leads to
  comes out as it should, whatever else is in the body (`Sanitize.OwnStringAfter`), as no string depends on another
  (`Splice.StringInTurn`).

## Model

| member | source | states |
|---|---|---|
| Viterbi.ComputeStateScores | openobscure-core/src/crf_scanner.rs:260-272 | each label scores the sum of its weights over the features the model knows |
| Viterbi.StateScoreAdds | openobscure-core/src/crf_scanner.rs:260-272 | every feature counts: the scores of two lists of features add up |
| Viterbi.StateScoreOfOne | openobscure-core/src/crf_scanner.rs:260-272 | no features score nothing, one feature scores its weight for the label, and nothing if the model has none |
| Viterbi.PathScoreIsSum | openobscure-core/src/crf_scanner.rs:207-245 | the score of a labelling, which the decoder maximises, is the sum of the scores of its labels and the weights of its transitions |
| Viterbi.FillRow | openobscure-core/src/crf_scanner.rs:219-235 | one row of both tables becomes the best score over all labellings up to that token and the first label before it that attains it; no other row changes |
| Viterbi.BestFinalLabel | openobscure-core/src/crf_scanner.rs:237-245 | the last label is the first one with the best final score |
| Viterbi.Backtrack | openobscure-core/src/crf_scanner.rs:247-254 | following the backpointers gives the decoded labelling, and at each token the table score of its prefix |
| Viterbi.Viterbi | openobscure-core/src/crf_scanner.rs:207-257 | the labels returned score at least as high as every labelling of that length; of all optimal labellings they are the reverse-lexicographically least; each returned score is the score of the prefix up to its token |
| Viterbi.OptimalIsUnique | openobscure-core/src/crf_scanner.rs:207-257 | only one labelling and one list of scores meet that description |
| Viterbi.ArgIsFirstBest | openobscure-core/src/crf_scanner.rs:225-231 | because comparisons are strict, the backpointer is the smallest label among the best ones |
| Viterbi.DecodeAttainsBest | openobscure-core/src/crf_scanner.rs:247-254 | the labelling the backpointers spell has exactly the score in the table |
| Viterbi.BestBoundsEveryPath | openobscure-core/src/crf_scanner.rs:207-257 | the dynamic program bounds the score of each of the exponentially many labellings |
| Viterbi.DecodeIsReverseLeast | openobscure-core/src/crf_scanner.rs:207-257 | ties among best labellings with one last label go to the reverse-lexicographically least |
| Viterbi.DecodeIsOptimal | openobscure-core/src/crf_scanner.rs:237-254 | the first best final label extends both facts to whole labellings |
| Viterbi.DecodePrefixAttainsBest | openobscure-core/src/crf_scanner.rs:219-254 | every prefix of the decoded labelling is itself best for its last label |
| Tokenizer.ByteSliceOfPositions | openobscure-core/src/crf_scanner.rs:441-481 | byte offsets of character positions slice out exactly the characters between them |
| Tokenizer.ByteSliceIsEncoded | openobscure-core/src/crf_scanner.rs:441-481 | byte offsets are those of the UTF-8 form: what a slice by offsets gives encodes to exactly the bytes between them |
| Tokenizer.FindTrimmed | openobscure-core/src/crf_scanner.rs:451-454 | the offset found by searching for the trimmed word is the byte length of what trimming removed |
| Tokenizer.FindIsTrimOffset | openobscure-core/src/crf_scanner.rs:454-470 | the leftmost occurrence of the trimmed word is never before the true trim offset, in any word |
| Tokenizer.PushWord | openobscure-core/src/crf_scanner.rs:451-462 | a finished word yields its trimmed token with true byte offsets, or nothing if only dashes are left |
| Tokenizer.Tokenize | openobscure-core/src/crf_scanner.rs:441-481 | one pass with a pending start gives the trimmed maximal words of the text |
| Tokenizer.TokensExactly | openobscure-core/src/crf_scanner.rs:441-481 | the tokens are exactly the maximal runs of letters, digits, hyphens and apostrophes, without the hyphens and apostrophes at their ends, at their byte offsets |
| Tokenizer.TokensAreOrdered | openobscure-core/src/crf_scanner.rs:441-481 | tokens are non-empty slices of the text in increasing byte order, none touching the next |
| Tokenizer.EveryAlnumInToken | openobscure-core/src/crf_scanner.rs:441-481 | every letter or digit lies in a token |
| CrfScanner.SegmentEndIsMaximal | openobscure-core/src/crf_scanner.rs:288-330 | an entity runs on over same-type I tags only, and stops only where they stop |
| CrfScanner.SegmentsAreOk | openobscure-core/src/crf_scanner.rs:275-363 | the recursive segmentation gives entities in order, each of one type, with score sum and count of exactly its tokens |
| CrfScanner.CoveredIffTagged | openobscure-core/src/crf_scanner.rs:275-363 | a token is in some entity if and only if its tag is not O |
| CrfScanner.SegmentsPartitionTags | openobscure-core/src/crf_scanner.rs:275-363 | before the confidence filter every tagged token is in exactly one entity, of its own type |
| CrfScanner.SegmentsAreRuns | openobscure-core/src/crf_scanner.rs:275-363 | the entities are exactly the maximal runs of labels of one type, read off the label numbers, with the sum and the number of their scores |
| CrfScanner.SumAdds | openobscure-core/src/crf_scanner.rs:310-330 | the sum of scores is additive, and that of one score is the score |
| CrfScanner.CloseSegment | openobscure-core/src/crf_scanner.rs:300-345 | closing an entity at the first tag that does not continue it emits its segment and nothing else |
| CrfScanner.Flush | openobscure-core/src/crf_scanner.rs:300-345 | flushing the open entity leaves the final result unchanged |
| CrfScanner.TakeTag | openobscure-core/src/crf_scanner.rs:284-350 | one round of the loop keeps what is emitted plus what is still to come equal to the segmentation |
| CrfScanner.DecodeEntities | openobscure-core/src/crf_scanner.rs:275-363 | the loop with its mutable current entity emits what the recursive segmentation emits |
| CrfScanner.EmittedSpansDisjoint | openobscure-core/src/crf_scanner.rs:366-397 | emitted spans are in-bounds byte slices of the text, strictly one after the other |
| CrfScanner.EmittedAreConfident | openobscure-core/src/crf_scanner.rs:366-397 | only entities whose mean score passes the threshold are emitted |
| CrfScanner.PushEntityExactly | openobscure-core/src/crf_scanner.rs:366-397 | an entity is emitted if and only if the confidence of its mean score reaches the threshold, with the bytes from its first token to its last |
| CrfScanner.ScanText | openobscure-core/src/crf_scanner.rs:103-123 | the matches are exactly what the segments of the optimal labelling of the text's tokens emit, and none without tokens; they are disjoint increasing slices of the text with enough confidence |
| CrfScanner.DecodedFromIsUnique | openobscure-core/src/crf_scanner.rs:103-123 | so only one list of matches does |
| CrfScanner.DecodedAnswersRuns | openobscure-core/src/crf_scanner.rs:103-123 | the scan reports a match for exactly those runs of labels in the optimal labelling whose mean score is confident enough |
| CrashBuffer.LeRoundTrip | openobscure-core/src/crash_buffer.rs:291-299 | reading back a written little-endian number gives the number |
| CrashBuffer.LeWeights | openobscure-core/src/crash_buffer.rs:291-299 | in the header the first byte weighs least, and each byte weighs 256 times the one before it |
| CrashBuffer.Cursor.StoreAllShiftsWindow | openobscure-core/src/crash_buffer.rs:87-96 | storing any bytes, more than the ring holds included, leaves the last ring-size bytes of the old window and them |
| CrashBuffer.Cursor.UnmovedOffsetAfterStores | openobscure-core/src/crash_buffer.rs:81-100 | before the header moves the old offset reads the new bytes first and then the old window without as many of its oldest bytes |
| CrashBuffer.Cursor.UnmovedOffsetReads | openobscure-core/src/crash_buffer.rs:81-100 | the same for any number of bytes, several times around the ring included |
| CrashBuffer.OpenedReads | openobscure-core/src/crash_buffer.rs:42-62 | a new file reads as zeros, and one of the right size exactly as it was left |
| CrashBuffer.LostOffsetReads | openobscure-core/src/crash_buffer.rs:75-120 | a file whose offset is lost reads from the start of its ring |
| CrashBuffer.CrashBuffer.Open | openobscure-core/src/crash_buffer.rs:33-62 | a file, new or left behind, is mapped cut or zero-extended to the requested size, at least 4 KB |
| CrashBuffer.CrashBuffer.CopyIn | openobscure-core/src/crash_buffer.rs:87-96 | the chunked copy loop stores byte after byte around the ring and leaves the header alone |
| CrashBuffer.CrashBuffer.WriteLine | openobscure-core/src/crash_buffer.rs:67-100 | the window becomes the last ring-size bytes of the old window, the line and a newline, from every state |
| CrashBuffer.CrashBuffer.DieDuringWrite | openobscure-core/src/crash_buffer.rs:81-100 | stopping after any number of bytes, the newline and more than a ring of bytes included, and before the header update, a read returns the window written over from its start on |
| CrashBuffer.CrashBuffer.ReadContents | openobscure-core/src/crash_buffer.rs:105-125 | a read returns the window without the NUL bytes at its ends |
| CrashBuffer.RunRefinesHistory | openobscure-core/src/crash_buffer.rs:67-100 | after any run of writes the window is the last ring-size bytes of everything ever written |
| CrashBuffer.FreshRunReadsBack | openobscure-core/src/crash_buffer.rs:67-125 | from a new buffer, lines without NUL read back as the last min(total, ring size) bytes written |
| Journal.EntryRoundTrip | openobscure-core/src/crash_buffer.rs:208-236 | an entry parses back from its line |
| Journal.FromLineIff | openobscure-core/src/crash_buffer.rs:221-236 | any line reads as an entry if and only if it is "J|a|b|c|d" with no other bar, its fields parse to those of the entry, and the flag is set exactly for "1" |
| Journal.LinesAreShort | openobscure-core/src/crash_buffer.rs:208-217 | with ids in the 36-character form no line is longer than 72 bytes, whatever its fields hold |
| Journal.CutLineNeverParses | openobscure-core/src/crash_buffer.rs:221-236 | a line that has lost any of its first bytes never parses as an entry |
| Journal.RequestJournal.WriteEntry | openobscure-core/src/crash_buffer.rs:254-256 | writing an entry appends its line to the window |
| Journal.RequestJournal.DieDuringWriteEntry | openobscure-core/src/crash_buffer.rs:81-100 | a torn entry of any number of bytes is written over the window from its start on |
| Journal.RequestJournal.WriteAll | openobscure-core/src/crash_buffer.rs:254-256 | writing entry after entry leaves the window the iterated specification names |
| Journal.RequestJournal.ReadIncomplete | openobscure-core/src/crash_buffer.rs:263-288 | one pass with a list and a set of completed ids gives the start entries whose id is never completed, in the order in which they stand in the window |
| Journal.WindowParses | openobscure-core/src/crash_buffer.rs:263-288 | in every suffix of the byte stream the cut oldest line disappears and all whole lines read back |
| Journal.JournalReadsBack | openobscure-core/src/crash_buffer.rs:254-288 | after any run of entries the journal reads as exactly the entries whose lines survive whole |
| Journal.FitsIffAfterCut | openobscure-core/src/crash_buffer.rs:263-288 | the surviving entries are exactly those from which on the stream fits the ring |
| Journal.ReportedExactly | openobscure-core/src/crash_buffer.rs:263-288 | an entry is reported if and only if it is a start entry wholly in the window with no completion of its id there |
| Journal.IncompletePicks | openobscure-core/src/crash_buffer.rs:283-287 | of what is read, the entries reported are those at an increasing list of places, which are exactly the places of start entries whose id is nowhere completed |
| Journal.ReportedInOrder | openobscure-core/src/crash_buffer.rs:263-288 | after any run the list reported is the run at an increasing list of places, which are exactly those of the start entries wholly in the window with no completion of their id there: every entry as often as written, in order |
| Journal.CompletedNeverReported | openobscure-core/src/crash_buffer.rs:263-288 | a request completed after all its starts is never reported, however the ring has wrapped |
| Journal.PendingAlwaysReported | openobscure-core/src/crash_buffer.rs:263-288 | a never-completed entry whose line is wholly in the window is reported |
| Journal.WriteAndRecover | openobscure-core/src/crash_buffer.rs:239-288 | one process writes any run to a new journal, the next maps the file and reads it: the list it reports has exactly the entries, and in the order, that ReportedInOrder describes |
| JournalCrash.TornWindow | openobscure-core/src/crash_buffer.rs:81-100 | after a run and a torn write of up to a ring of bytes the window reads as the torn bytes, then zeros or the remnant of a cut line, then the whole lines left |
| JournalCrash.GluedLineNeverParses | openobscure-core/src/crash_buffer.rs:221-236 | torn bytes running into an intact line, zeros between them or not, spoil that line |
| JournalCrash.GluedMixesFields | openobscure-core/src/crash_buffer.rs:221-236 | exactly what torn bytes glued to the remnant of a line read as: nothing, unless both are torn in the same field and that field then reads as one; else the entry with the new fields before it and the old fields after it |
| JournalCrash.TearReads | openobscure-core/src/crash_buffer.rs:81-100 | for every run, ring size, entry and crash point of up to a ring of bytes, the newline included, exactly which entries the journal then reads |
| JournalCrash.LongTearErasesRun | openobscure-core/src/crash_buffer.rs:81-100 | a write torn after a ring of bytes or more leaves nothing of the run |
| JournalCrash.TearIsHarmlessIff | openobscure-core/src/crash_buffer.rs:81-100 | all intact entries are read and none that was never written, if and only if nothing was stored; or the new line is whole and meets a remnant or the oldest line directly, or says the same as the oldest; or the torn bytes meet a remnant torn in another field, or mix with it to nothing or to an entry that was written; or no line is left, and the torn bytes are not an unwritten completion without its flag |
| JournalCrash.OneByteLosesOldest | openobscure-core/src/crash_buffer.rs:81-100 | while the ring has not wrapped, one stored byte loses the oldest entry |
| JournalCrash.OldestLendsFlag | openobscure-core/src/crash_buffer.rs:81-100 | in an exactly filled ring, torn bytes that lack only the last byte take it from the oldest entry of equal length |
| JournalCrash.CrashAndRecover | openobscure-core/src/crash_buffer.rs:67-125 | one process writes any run and dies inside one more write, the next maps the file and reads it: the result is what is incomplete among the entries of TearReads |
| JournalCrash.CompletedAfterTearIff | openobscure-core/src/crash_buffer.rs:263-288 | for every run, ring and crash point of up to a ring of bytes: a request completed after all its starts is reported after a torn write if and only if none of its completions is left and the torn bytes read as a start of it, mixed with the remnant of a line, or as a completion without its flag where no line is left |
| JournalCrash.EveryTearReads | openobscure-core/src/crash_buffer.rs:186-252 | in the 64 KB journal with 36-character ids every crash point fits the ring, so the entries read are known for all of them |
| JournalCrash.TearIsErasedIff | openobscure-core/src/crash_buffer.rs:67-100 | what is written after a crash leaves the window as if there had been no torn write, if and only if it goes beyond every byte in which the torn write changed the window |
| JournalCrash.TearIsErased | openobscure-core/src/crash_buffer.rs:67-100 | for every run and ring, entries of at least as many bytes as the torn write stored erase it |
| JournalCrash.ErasedTearIsNotSeen | openobscure-core/src/crash_buffer.rs:254-288 | and then the entries reported are those of the two runs without the crash |
| JournalCrash.CrashAndWriteOn | openobscure-core/src/crash_buffer.rs:42-125 | one process writes any run and dies inside one more write, the next maps the file and writes more, a third reads: the result is what is incomplete in the window written over and on |
| JournalCrash.PendingRequestLost | openobscure-core/src/crash_buffer.rs:81-100 | in the 64 KB journal, for every pending request and next entry: one byte of the next entry makes the only pending request unreported |
| JournalCrash.CompletionForged | openobscure-core/src/crash_buffer.rs:81-100 | in the 64 KB journal, after any of a family of runs that fill it exactly, the torn start entry of a new request reads as a completion entry nobody wrote |
| JournalCrash.ExampleIsForged | openobscure-core/src/crash_buffer.rs:81-100 | a concrete run of that family, with ids in hexadecimal, after which it happens |
| Text.TrimDropsZeros | openobscure-core/src/crash_buffer.rs:121-124 | trimming NUL bytes removes the unwritten part of the ring |
| Text.SplitField | openobscure-core/src/crash_buffer.rs:221-225 | splitting at a separator gives the first field and the fields of the rest |
| Text.SplitConcat | openobscure-core/src/crash_buffer.rs:221-225 | the fields of a joined text are those of its parts, the last of one run into the first of the other |
| Text.FindFromFinds | openobscure-core/src/hybrid_scanner.rs:375 | the search for a value misses no occurrence and none before the one it returns |
| Decimal.ParseIntOfPrint | openobscure-core/src/crash_buffer.rs:226-228 | a printed integer of the type parses back |
| Clustering.Forest.Find | openobscure-core/src/hybrid_scanner.rs:500-505 | path-compressing find terminates, returns the root, and changes no root |
| Clustering.Forest.Union | openobscure-core/src/hybrid_scanner.rs:507-513 | union merges exactly the two trees and keeps the forest acyclic |
| Clustering.CompressionKeepsForest | openobscure-core/src/hybrid_scanner.rs:500-505 | pointing a node at its root keeps roots and the depth measure |
| Clustering.UnionKeepsForest | openobscure-core/src/hybrid_scanner.rs:507-513 | linking one root under another keeps a forest with a decreasing measure |
| Clustering.MergeOverlapping | openobscure-core/src/hybrid_scanner.rs:515-524 | after all pairs two indices have one root if and only if a chain of overlapping spans links them |
| Clustering.CollectByRoot | openobscure-core/src/hybrid_scanner.rs:526-531 | every index is put once under its root, in ascending order |
| Clustering.ClusterOverlapping | openobscure-core/src/hybrid_scanner.rs:491-534 | the clusters are the connected components of the overlap graph, in whatever order the map yields them |
| Clustering.SameClusterIffLinked | openobscure-core/src/hybrid_scanner.rs:491-534 | two indices share a cluster if and only if a chain of overlaps links them |
| Clustering.ClustersAreDisjoint | openobscure-core/src/hybrid_scanner.rs:491-534 | no index is in two clusters |
| Clustering.OverlapIffShareByte | openobscure-core/src/hybrid_scanner.rs:515-525 | two spans overlap if and only if some byte is in both |
| Voting.GroupByType | openobscure-core/src/hybrid_scanner.rs:558-572 | each type present gets its best raw confidence, the first match that has it, and all its sources |
| Voting.PickType | openobscure-core/src/hybrid_scanner.rs:574-588 | the type picked has the greatest adjusted confidence whatever the map order |
| Voting.ResolveCluster | openobscure-core/src/hybrid_scanner.rs:549-598 | the winner is the first match of its type with the greatest raw confidence, and its confidence is the maximum over types of the raw confidence plus the bonus, capped at one, where two matches of the type come from different sources |
| Voting.ScoresIffAdjusted | openobscure-core/src/hybrid_scanner.rs:574-580 | the score the loop computes from the set of sources is the raw confidence, and with the bonus up to one if and only if two matches of the type come from different sources |
| Voting.VoteAll | openobscure-core/src/hybrid_scanner.rs:278-287 | each cluster at or above the threshold contributes one result, its elected match with its top score, the others none |
| Voting.OverlapMeansSameCluster | openobscure-core/src/hybrid_scanner.rs:278-287 | results that share a byte come from one cluster |
| Voting.WinnersApart | openobscure-core/src/hybrid_scanner.rs:278-287 | results are pairwise disjoint |
| Voting.WinnersAreVerdicts | openobscure-core/src/hybrid_scanner.rs:278-287 | a cluster has exactly one result, the elected match with its top score, if that reaches the threshold, and none otherwise |
| Voting.TopScoreBoundsMembers | openobscure-core/src/hybrid_scanner.rs:558-588 | with a bonus that is not negative the top score of a cluster is at least the confidence of each member |
| CodeFence.MaskFence | openobscure-core/src/hybrid_scanner.rs:618-660 | a fence is blanked up to its closing fence, or scanning backs up behind the opening marks |
| CodeFence.MaskInline | openobscure-core/src/hybrid_scanner.rs:662-689 | inline code is blanked between its ticks on one line, or skipped |
| CodeFence.MaskCodeFences | openobscure-core/src/hybrid_scanner.rs:608-695 | the in-place byte loop terminates despite backing up; in its result every byte of code is a space or the line break it was, and every other byte is the original |
| CodeFence.CoveredIffInCode | openobscure-core/src/hybrid_scanner.rs:608-695 | a byte is masked if and only if it is code, said over the text alone: it lies from the opening marks of a fence the scan reaches outside other code up to the first closing fence after their line, or from tick to tick on one line |
| CodeFence.ExactlyCodeIsMasked | openobscure-core/src/hybrid_scanner.rs:641-660 | so in the masked text exactly the bytes of code are spaces, except for line breaks |
| CodeFence.RangesAreProper | openobscure-core/src/hybrid_scanner.rs:608-695 | masked ranges are disjoint and in order, start at a backtick and end next to one |
| CodeFence.MaskedKeepsValid | openobscure-core/src/hybrid_scanner.rs:608-695 | masking keeps valid UTF-8 valid |
| CodeFence.MaskingIsSafe | openobscure-core/src/hybrid_scanner.rs:608-695 | on any valid text: same length, valid, every byte the original or a space, line breaks where they were |
| CodeFence.SpanSurvivesMasking | openobscure-core/src/hybrid_scanner.rs:289-299 | spans found in the masked text can be sliced out of the original |
| CodeFence.ClosingFenceStays | openobscure-core/src/hybrid_scanner.rs:641-645 | the closing marks of every masked fence are still there in the masked text, contrary to the comment there |
| CodeFence.NoBacktickNoMask | openobscure-core/src/hybrid_scanner.rs:618-625 | a text without backticks is not masked at all, so tildes open nothing, contrary to the comment there |
| TextScan.SortedIsDisjoint | openobscure-core/src/hybrid_scanner.rs:300-302 | sorting pairwise disjoint spans by start puts them one after the other |
| TextScan.RestoreValues | openobscure-core/src/hybrid_scanner.rs:289-299 | values are taken from the original text at the same offsets |
| TextScan.VoteAndSort | openobscure-core/src/hybrid_scanner.rs:278-302 | after voting, restoring and sorting, results are placed in the original text, disjoint and sorted, and each cluster has its verdict |
| TextScan.ConfidentAreAnswered | openobscure-core/src/hybrid_scanner.rs:278-287 | with a bonus that is not negative, the cluster of every match at or above the threshold yields exactly one result, at least as confident as the match |
| TextScan.ScanText | openobscure-core/src/hybrid_scanner.rs:180-308 | a whole text scan shows the scanners the text with exactly its code blanked, or as it is, and reports disjoint sorted spans between character boundaries, one verdict per cluster of what the scanners found, and one result for the cluster of every match at or above the threshold |
| Sorting.SortSorts | openobscure-core/src/hybrid_scanner.rs:302 | the library sort sorts |
| Sorting.SortIsStable | openobscure-core/src/body.rs:916 | elements that compare equal keep their order |
| Sorting.SortKeepsPairwise | openobscure-core/src/body.rs:916 | a symmetric relation between all pairs survives sorting |
| Json.ReadIndex | openobscure-core/src/body.rs:992-1000 | the inner loop reads the digits up to the closing bracket, or to the end |
| Json.ParsePath | openobscure-core/src/body.rs:974-1014 | the character loop gives the segments the recursive parser gives |
| Json.Navigate | openobscure-core/src/body.rs:948-965 | following a path walks to the value at the place it parses to, if there is one |
| Json.ParsedIsGood | openobscure-core/src/body.rs:974-1014 | no path parses to an empty key or to one with a dot or a bracket |
| Json.PathRoundTripIff | openobscure-core/src/body.rs:974-1014 | a printed place parses back to itself if and only if its keys are non-empty and free of dots and brackets |
| Json.PrintIsInjective | openobscure-core/src/hybrid_scanner.rs:409-421 | different places with such keys print differently |
| Json.PrintedPathsCanCollide | openobscure-core/src/hybrid_scanner.rs:409-421 | without that condition a dotted key and a nested key print the same path |
| JsonScan.RecoverNested | openobscure-core/src/hybrid_scanner.rs:373-391 | the loop over nested matches appends each at its first occurrence unless something reported overlaps it |
| JsonScan.ScanString | openobscure-core/src/hybrid_scanner.rs:342-392 | a string adds its own matches and then those recovered from JSON inside it |
| JsonScan.ScanInner | openobscure-core/src/hybrid_scanner.rs:333-425 | the recursive walk equals a fold over the flattened list of its string leaves |
| JsonScan.ScanFields | openobscure-core/src/hybrid_scanner.rs:393-416 | object fields are walked in order, skipped fields and base64 data left out |
| JsonScan.ScanElems | openobscure-core/src/hybrid_scanner.rs:417-422 | array elements are walked in order under bracketed paths |
| JsonLeaves.LeavesExactly | openobscure-core/src/hybrid_scanner.rs:333-425 | in any body exactly those strings are scanned that a place leads to without passing a skipped key or the data of a base64 source and that embed no image, each with the printed form of its place |
| JsonLeaves.LeavesInOrder | openobscure-core/src/hybrid_scanner.rs:389-425 | and they are scanned in the order of the body at every level |
| JsonScan.NestedIsWalked | openobscure-core/src/hybrid_scanner.rs:356-371 | the JSON in a string is walked if and only if the string, without white space around it, stands in braces or in brackets and parses, and is the body's own or one level below |
| JsonScan.OverlapsAnyIffByteTaken | openobscure-core/src/hybrid_scanner.rs:377-381 | a nested match is held to overlap what was reported if and only if some byte of its place lies in a match reported before |
| JsonScan.FoldConcat | openobscure-core/src/hybrid_scanner.rs:333-425 | walking two lists of leaves is walking one and then the other |
| JsonScan.CollectEntries | openobscure-core/src/hybrid_scanner.rs:453-487 | the entries are the scanned children with the paths the walk would give them |
| JsonScan.ScanJson | openobscure-core/src/hybrid_scanner.rs:311-331 | one entry or none: the walk; otherwise the scans of the entries one after the other |
| JsonMatches.LeavesAreOf | openobscure-core/src/hybrid_scanner.rs:393-422 | in a tree with distinct keys per object every leaf has its own place, and that place leads to its string |
| JsonMatches.OccurrenceIsBounded | openobscure-core/src/hybrid_scanner.rs:373-375 | a valid value occurs in a valid string only between character boundaries |
| JsonMatches.RecoveredStandApart | openobscure-core/src/hybrid_scanner.rs:373-391 | a match recovered from nested JSON overlaps nothing reported before it |
| JsonMatches.FoldReported | openobscure-core/src/hybrid_scanner.rs:333-425 | every match of the walk is placed in the string whose path it carries, at any nesting depth; matches with a path that only one string has never overlap |
| JsonCoverage.CoveredAtTurnIff | openobscure-core/src/hybrid_scanner.rs:373-391 | right after its turn a nested value occurs in its string and is overlapped there by a match on the path of that string, if and only if it occurs and it was not the case that only matches on other paths overlapped its first occurrence |
| JsonCoverage.FoldCoversIff | openobscure-core/src/hybrid_scanner.rs:342-392 | a walk at any nesting depth puts a match with a path over part of a span if and only if some string with that path does: a match of its text scan overlaps the span, or a nested match, not blocked at its own turn, has a value whose first occurrence does |
| JsonMatches.FoldReportsOwn | openobscure-core/src/hybrid_scanner.rs:346-353 | all matches the text scan finds in a string are reported |
| JsonMatches.ScanIsSound | openobscure-core/src/hybrid_scanner.rs:311-425 | in any body every match of the whole scan is placed in a string of the body and carries its path, matches with a path that only one string has never overlap, and every match of the text scan of a string is reported |
| JsonCoverage.ScanCoversIff | openobscure-core/src/hybrid_scanner.rs:311-425 | the same for the whole scan of any body, any path and any span |
| JsonMatches.ScanIsPlaced | openobscure-core/src/hybrid_scanner.rs:311-425 | where all keys survive printing, every match leads by its printed path to the string it is placed in, and same-path matches never overlap |
| JsonFindings.FoldOfFindings | openobscure-core/src/hybrid_scanner.rs:333-425 | strings in which neither the text scan nor that of nested JSON finds anything leave no trace in a walk |
| JsonFindings.ScanIsSoundInFindings | openobscure-core/src/hybrid_scanner.rs:311-425 | in any body every match of the whole scan is placed in a string with findings and carries its path, and matches with a path that only one string with findings has never overlap |
| JsonCoverage.FoldHasPaths | openobscure-core/src/hybrid_scanner.rs:333-425 | the walk only appends, and what it appends carries the paths of the leaves walked |
| JsonCoverage.LeafReportsIff | openobscure-core/src/hybrid_scanner.rs:342-392 | exactly what scanning one string adds: the matches of its text scan, and each nested match whose value occurs literally and whose first occurrence nothing reported so far overlaps, moved there |
| JsonCoverage.FoldReportsIff | openobscure-core/src/hybrid_scanner.rs:333-425 | exactly what a walk reports, at any nesting depth, with the reason for each match |
| JsonCoverage.InnerReportsIff | openobscure-core/src/hybrid_scanner.rs:356-371 | exactly what is found in the JSON nested in a string: nothing below the depth limit or where the trimmed text does not stand in braces or brackets or does not parse, otherwise what the walk one level down reports |
| JsonCoverage.ScanReportsIff | openobscure-core/src/hybrid_scanner.rs:311-425 | exactly what the whole scan reports |
| JsonCoverage.RepeatedIsBlocked | openobscure-core/src/hybrid_scanner.rs:373-391 | of nested matches with one value only the first to have its turn can be reported: the later ones are looked up at the same place and blocked |
| JsonCoverage.ScanProtectsIff | openobscure-core/src/hybrid_scanner.rs:311-425 | the exact condition under which the scan protects every byte of every occurrence of a value in a string: it occurs literally, and some string with that path puts a match over each of those bytes |
| JsonParallel.LeafShiftsIff | openobscure-core/src/hybrid_scanner.rs:373-391 | scanning a leaf on top of other matches adds what it adds alone, if and only if no recovered match overlaps them |
| JsonParallel.FoldShiftsIff | openobscure-core/src/hybrid_scanner.rs:333-425 | the same for any list of leaves, whatever their paths |
| JsonParallel.GroupsBehind | openobscure-core/src/hybrid_scanner.rs:311-331 | a walk that has dropped a match the parallel scan keeps never catches up with it |
| JsonParallel.ParallelAgreesIff | openobscure-core/src/hybrid_scanner.rs:311-331 | for every body, the parallel scan equals the sequential walk, as a sequence, if and only if no match recovered from nested JSON overlaps a match under an earlier entry |
| JsonParallel.ParallelAgreesWithoutNesting | openobscure-core/src/hybrid_scanner.rs:311-331 | for every body, they agree if no string leaf parses as nested JSON |
| HiddenNames.OtherPathHidesNested | openobscure-core/src/hybrid_scanner.rs:377 | a concrete body where the overlap test against another path drops a nested name in the walk but not in the parallel scan |
| HiddenNames.NestedNameMissed | openobscure-core/src/hybrid_scanner.rs:377 | a concrete body with one top-level key whose scan misses a nested name: it is in a string, and no match has the path of that string |
| HiddenNames.EscapedNameMissed | openobscure-core/src/hybrid_scanner.rs:375 | a concrete body with a name written with a JSON escape: it is found in the nested array and dropped, as it does not occur literally |
| HiddenNames.RepeatedNameMissed | openobscure-core/src/hybrid_scanner.rs:373-391 | a concrete body with a name twice in a nested array: both are found, one is reported, and nothing covers the second |
| HiddenNames.NestedNameFound | openobscure-core/src/hybrid_scanner.rs:356-391 | a concrete body with a name in a nested object that the text scan of the string does not see: it is reported at its place, all of it |
| JsonRewrite.LocateInRewrite | openobscure-core/src/body.rs:948-965 | after replacing strings, every place leads to the rewritten form of what it led to |
| JsonRewrite.StringInRewrite | openobscure-core/src/body.rs:911-937 | exactly the strings at the replaced places change |
| JsonRewrite.RewriteOneMore | openobscure-core/src/body.rs:910-937 | setting one more string in place is one more entry in the simultaneous replacement |
| Splice.SpliceOneMore | openobscure-core/src/body.rs:917-929 | with everything to the right replaced, the next span is still in bounds and on character boundaries, and replacing it gives one more new value in place |
| Splice.ApplyToText | openobscure-core/src/body.rs:912-930 | the loop over one string gives what the rounds give in turn: spans outside the text are passed over, and a span off character boundaries stops it |
| Splice.FittingSplices | openobscure-core/src/body.rs:912-930 | replacing in descending offset order never goes out of bounds or into a character and gives the original gaps interleaved with the new values |
| Splice.InOrderAscends | openobscure-core/src/body.rs:914-916 | the sorted replacements, read backwards, are one after the other |
| Splice.InterleavedIsValid | openobscure-core/src/body.rs:917-929 | the new string is valid UTF-8 |
| Splice.InterleavedLength | openobscure-core/src/body.rs:917-929 | its length is the old one plus the growth of the replacements |
| Splice.InterleavedLays | openobscure-core/src/body.rs:917-929 | each new value stands where its span stood, shifted by the growth of those before it, behind the unchanged gap |
| Splice.OnlyOutsideIsLeft | openobscure-core/src/body.rs:917-929 | with the new values taken out again, exactly the bytes that lie in no replaced span are left, in their order |
| Splice.GroupByPath | openobscure-core/src/body.rs:895-900 | every path gets its replacements in their order |
| Splice.ApplyPath | openobscure-core/src/body.rs:909-942 | one path changes the string it leads to, or nothing |
| Splice.ApplyReplacements | openobscure-core/src/body.rs:894-944 | for every body and all replacements the outcome is that of visiting the paths, each once, in some order |
| Splice.StringInTurn | openobscure-core/src/body.rs:909-942 | for every body, all replacements and every order of the paths: what a string becomes depends on itself and the paths that lead to it alone |
| Splice.PanicsIff | openobscure-core/src/body.rs:909-942 | and the code panics if and only if it would on some string taken alone |
| Splice.OutcomeIsStringByString | openobscure-core/src/body.rs:894-944 | in every body with distinct keys the outcome is a panic of some string, or the tree in which each string some path leads to is what those paths make of it, and nothing else has changed |
| Splice.OnlyPathReplaces | openobscure-core/src/body.rs:909-942 | a string that at most one path leads to comes out with the replacements on that path made, once: as the gaps and new values in turn if they fit it, whatever the rest of the body does |
| Splice.ApplicableInAnyOrder | openobscure-core/src/body.rs:894-944 | replacements that fit the strings their paths lead to never stop the code, and in whatever order the map yields the paths the body becomes the simultaneous replacement of all strings |
| Splice.SubstitutesIsUnique | openobscure-core/src/body.rs:909-910 | the result does not depend on path order |
| RequestBody.ReplaceMatch | openobscure-core/src/body.rs:184-274 | one match updates mappings, replacements and counter as its type, the cipher and the fail mode say; the counter never goes below zero |
| RequestBody.ReplaceMatches | openobscure-core/src/body.rs:178-275 | the loop over all matches gives the outcome of the run |
| RequestBody.ReplacementsKeepOrder | openobscure-core/src/body.rs:184-274 | replacements are those of the matches not forwarded, in match order |
| RequestBody.ClosedReplacesAll | openobscure-core/src/body.rs:200-216 | failing closed every match is replaced and the counter is the number of failed encryptions |
| RequestBody.OpenCountsForwarded | openobscure-core/src/body.rs:217-250 | failing open the matches left without a replacement number exactly the counter |
| RequestBody.CounterMeansPlaintextIff | openobscure-core/src/body.rs:49-50 | the counter is the number of matches sent in plaintext if and only if the proxy fails open or no encryption fails |
| RequestBody.WhatIsSent | openobscure-core/src/body.rs:184-274 | a match has no replacement if and only if its type has a format, the mode is open and encryption fails for another reason than a small domain; every other one is replaced with the ciphertext, failing closed the redaction naming its type, or else the token handed out for its prefix and value |
| RequestBody.TypesTellApart | openobscure-core/src/pii_types.rs:31-195 | redactions of different types read differently, and so do their token prefixes, except for the types without a prefix of their own |
| RequestBody.ReplacementOfMatch | openobscure-core/src/body.rs:184-274 | where the replacement of each match stands and what its new text is |
| RequestBody.TokensAreOfRun | openobscure-core/src/body.rs:181-274 | the token generator is in the state its requests led to |
| RequestBody.SameTokenIffSameValue | openobscure-core/src/body.rs:254-273 | two token-redacted matches get the same token if and only if prefix and value agree, as long as the generator does not overflow |
| RequestBody.MappingIsLatest | openobscure-core/src/body.rs:191-197 | the new value of a match maps back to the last match that was given the same new value, so to the value it replaced if and only if that one has the same type and value |
| RequestBody.MappingsExactly | openobscure-core/src/body.rs:178-275 | exactly the new values given out are known, and each maps back to the last match it was given to |
| Sanitize.RunIsValid | openobscure-core/src/body.rs:184-274 | all new values are valid UTF-8 |
| Sanitize.ReplacementsApply | openobscure-core/src/body.rs:894-944 | in a body where no string with findings has a path that leads to another string than itself, what the scan reports and the loop keeps meets the precondition of the splicer, and the code never panics |
| Sanitize.SanitizeText | openobscure-core/src/body.rs:142-315 | on every body scan, replace and splice give the outcome of visiting the paths in some order, the mappings and the counter; with distinct keys that is string by string what the paths leading to each string make of it, or a panic of one of them; whenever the replacements fit the strings their paths lead to, it is the body with all of them made at once |
| Sanitize.GoodNeverMisleads | openobscure-core/src/body.rs:948-965 | where all keys survive printing, no path leads to another string than its own |
| Sanitize.OwnStringAfter | openobscure-core/src/body.rs:909-942 | for any string of any body the code does not panic on: if the keys on the way to it do not survive printing it comes out as it went in; if they do, and no other string with findings has a path that leads to it, it comes out as its gaps and the new values on its path in turn, whatever the other strings are |
| Sanitize.EveryMatchIsReplacedIff | openobscure-core/src/body.rs:178-306 | every match was found in some string; a match that is not of a type with a format, failing open with an encryption error, has its replacement: in any body the code does not panic on, a string with its path comes out unchanged if the keys on the way do not survive printing, and rewritten, the new value at its exact shifted place behind the unchanged gap, if they do and no other string with findings has a path that leads there |
| Sanitize.EveryMatchIsReplaced | openobscure-core/src/body.rs:178-306 | every match except those of a type with a format whose encryption, failing open, gives another error than a small domain, has its new value at its exact shifted place in the string its path leads to, as long as the strings with findings whose paths lead there lie under keys that survive printing and the code does not panic, which it never does where no string with findings misleads |
| Sanitize.WhatIsLeft | openobscure-core/src/body.rs:178-306 | of such a string exactly the bytes are left, besides the new values, that lie in no match on its path, or only in forwarded ones |
| Splice.OtherStringsStay | openobscure-core/src/body.rs:894-944 | in every body, for all replacements and path orders: strings no replacement leads to are unchanged and no place appears or disappears |
| Sanitize.SanitizedIsUnique | openobscure-core/src/body.rs:894-944 | the resulting body is unique |
| Sanitize.BadPlaceStays | openobscure-core/src/body.rs:911-942 | in every body, for all replacements and path orders, a string under a key that is empty or has a dot or an opening bracket comes out as it went in |
| DottedKeys.DottedNameStays | openobscure-core/src/body.rs:911-942 | a concrete body with a dotted key: the scan finds the name, the loop makes a new value for it, and every outcome of the code is the body as it was |
| DottedKeys.OtherStringIsOverwritten | openobscure-core/src/body.rs:911-942 | a concrete body with a dotted key and a nested one, of distinct keys and valid text: in every outcome of the code the new value is in the other string, and the name stays |
| DottedKeys.SpanInCharacterPanics | openobscure-core/src/body.rs:917-929 | the same body with another text in the other string: the span of the match ends inside a character there, and the code panics |
| DottedKeys.SpanBehindEndIsSkipped | openobscure-core/src/body.rs:917-931 | the same body with a text too short for the span: nothing is replaced, and both strings stay |
| DottedKeys.TwinIsGarbled | openobscure-core/src/body.rs:911-942 | the same body with the name in both strings: both replacements are made in the second string, one on top of the other, and the name under the dotted key stays |
| Boxes.IouSymmetric | openobscure-core/src/face_detector.rs:228-244 | overlap does not depend on the order of the boxes |
| Boxes.IouAgrees | openobscure-core/src/detection_validators.rs:423-439 | detector and validator measure the same overlap |
| Boxes.IouIsSharedArea | openobscure-core/src/detection_validators.rs:423-439 | where the common points of two boxes form a box, the overlap is its area over the area of both boxes less it, and zero if that is not positive |
| Boxes.ApartIsZero | openobscure-core/src/detection_validators.rs:423-439 | boxes without a common point have overlap zero |
| Boxes.BboxIouBounds | openobscure-core/src/detection_validators.rs:423-439 | overlap of well-formed boxes lies in [0, 1] |
| Boxes.BboxIouSelf | openobscure-core/src/detection_validators.rs:423-439 | a box with area overlaps itself fully |
| Nms.Suppress | openobscure-core/src/face_detector.rs:215-222 | marking later detections records exactly those blocked by what is kept |
| Nms.SuppressNonMaxima | openobscure-core/src/face_detector.rs:199-225 | the in-place sort and suppression array select exactly what the keep-list greedy selects |
| Nms.SuppressWithKeepList | scripts/benchmark_face_detectors.py:159-176 | the benchmark script selects the same |
| Nms.KeptOverlapLittle | openobscure-core/src/face_detector.rs:199-225 | kept detections overlap pairwise by at most the threshold, in descending confidence |
| Nms.DroppedHaveBetterNeighbour | openobscure-core/src/face_detector.rs:199-225 | every dropped detection overlaps a kept one of at least its confidence by more than the threshold |
| Nms.SelectionIsIdempotent | openobscure-core/src/face_detector.rs:199-225 | suppressing a selection again changes nothing |
| Nms.ValidateNoNmsViolations | openobscure-core/src/detection_validators.rs:125-143 | the validator reports exactly the pairs over the threshold, each once |
| Nms.SelectionPassesValidator | openobscure-core/src/detection_validators.rs:125-143 | it reports nothing on a selection at any threshold no lower |
| BoxMatching.BestMatch | openobscure-core/src/detection_validators.rs:464-476 | the inner loop picks the first free box of greatest overlap at or above the threshold |
| BoxMatching.PickIsBest | openobscure-core/src/detection_validators.rs:464-476 | no eligible free box overlaps more, and none before it as much |
| BoxMatching.PrecisionRecall | openobscure-core/src/detection_validators.rs:445-493 | precision and recall are the matched parts of detections and ground truth and lie in [0, 1], F1 is 2tp over all boxes, and the empty cases are apart |
| BoxMatching.MatchingIsProper | openobscure-core/src/detection_validators.rs:457-480 | matched pairs are eligible and no box is used twice |
| BoxMatching.MatchingIsMaximal | openobscure-core/src/detection_validators.rs:457-480 | an eligible pair is left apart only if its box was taken before or its detection has a box at least as good |
| BoxMatching.EligiblePairTouched | openobscure-core/src/detection_validators.rs:457-480 | of every eligible pair one side is matched |
| BoxMatching.GreedyWithinFactorTwo | openobscure-core/src/detection_validators.rs:457-480 | twice the true positives is at least the size of any matching at the threshold |
| BoxMatching.TruePositivesBounded | openobscure-core/src/detection_validators.rs:457-480 | true positives exceed neither the detections nor the ground truth |
| BoxMatching.ScoresMeanWhatTheyShould | openobscure-core/src/detection_validators.rs:484-492 | precision and recall lie in [0, 1] and F1 is 2tp over all boxes |
| HashTokens.EncodeBase36 | openobscure-core/src/hash_token.rs:95-105 | the array filled from its end holds the base-36 digits of the big-endian value |
| HashTokens.Base36RoundTrip | openobscure-core/src/hash_token.rs:95-105 | the digits give back the value modulo 36^4 |
| HashTokens.DigitsShowBytes | openobscure-core/src/hash_token.rs:95-105 | the four characters are base-36 digits and read as the first four bytes of the hash, first byte highest, modulo 36^4 |
| HashTokens.BaseShape | openobscure-core/src/hash_token.rs:39-67 | a base token is the prefix, an underscore, and those digits of the hash of the request id and the plaintext |
| HashTokens.SuffixShape | openobscure-core/src/hash_token.rs:76-82 | the other short tokens are the base with one letter from b to z behind it |
| HashTokens.FallbackShape | openobscure-core/src/hash_token.rs:84-90 | the long token is the base, an underscore, and the digits of the hash of the base and the plaintext |
| HashTokens.TokenGenerator.Generate | openobscure-core/src/hash_token.rs:39-57 | the call returns the token of the request and records it in both maps |
| HashTokens.TokenGenerator.ResolveCollision | openobscure-core/src/hash_token.rs:70-91 | the suffix loop returns the first free candidate, or the long fallback |
| HashTokens.ResolveIsFirst | openobscure-core/src/hash_token.rs:70-91 | it is the first of the 26 short tokens not in use for another plaintext, and the long one if and only if all are |
| HashTokens.GenerateKeepsDistinctIff | openobscure-core/src/hash_token.rs:39-91 | a call keeps tokens distinct if and only if it does not run into an occupied fallback |
| HashTokens.RunKeepsDistinct | openobscure-core/src/hash_token.rs:39-91 | over any run without overflow tokens stay distinct |
| HashTokens.TokensAreStable | openobscure-core/src/hash_token.rs:39-57 | a token once handed out is what every later equal request gets |
| HashTokens.TokensAreInjective | openobscure-core/src/hash_token.rs:39-91 | two calls return one token if and only if prefix and plaintext agree |
| HashTokens.RunInjectiveIffNoOverflow | openobscure-core/src/hash_token.rs:70-91 | no two different requests of a run share a token if and only if no call overflows |
| HashTokens.FewPlaintextsPerHash | openobscure-core/src/hash_token.rs:70-91 | at most 26 plaintexts per prefix and short hash suffice for that |
| HashTokens.ManyPlaintextsShare | openobscure-core/src/hash_token.rs:84-90 | 28 plaintexts that agree on both hashes always share a token |
| HashTokens.SomeRunShares | openobscure-core/src/hash_token.rs:84-90 | for every hash function and prefix there is a run in which two plaintexts share a token: the fallback does not guarantee uniqueness |
| HashTokens.Base36OfRemainder | openobscure-core/src/hash_token.rs:95-105 | only the value modulo 36^4 shows in the digits |
| Latency.LatencyHistogram.Record | openobscure-core/src/health.rs:92-98 | a sample goes into its bucket, the count and the sum, all modulo 2^64 |
| Latency.BucketIsFirstThatFits | openobscure-core/src/health.rs:92-98 | a sample falls in the first bucket whose bound is not below it, or in the last one |
| Latency.SumAdds | openobscure-core/src/health.rs:96-98 | the sum of latencies is additive, and that of one is itself |
| Latency.LatencyHistogram.FindRank | openobscure-core/src/health.rs:107-116 | the loop stops at the first bucket whose cumulative count reaches the rank |
| Latency.LatencyHistogram.QueryPercentile | openobscure-core/src/health.rs:101-117 | the answer is the bound of the bucket of the exact nearest-rank sample for 0 < p <= 100 |
| Latency.RankIsLeast | openobscure-core/src/health.rs:105-106 | the rank is the least whole number not below p percent of the samples |
| Latency.LatencyHistogram.Count | openobscure-core/src/health.rs:119-121 | the count is the number of samples modulo 2^64 |
| Latency.LatencyHistogram.MeanUs | openobscure-core/src/health.rs:123-129 | the mean is the sum modulo 2^64 divided by the count modulo 2^64, rounded down, and 0 if that count is 0 |
| Latency.PercentileIsBucketOfNearestRank | openobscure-core/src/health.rs:101-117 | the bucketed percentile is the bucket bound of the ceil(p*n/100)-th smallest sample, so no less than it up to 10 s |
| Latency.PercentileMonotone | openobscure-core/src/health.rs:101-117 | a greater p never gives a smaller answer |
| Latency.PercentileOutOfRange | openobscure-core/src/health.rs:101-117 | p <= 0 always gives the first bound, a rank above the count the last |
| Latency.BucketsSumToCount | openobscure-core/src/health.rs:92-98 | the buckets sum to the count |
| LatencyRace.StepKeepsInv | openobscure-core/src/health.rs:92-117 | every atomic step of any recorder or reader, counters wrapping at 2^64, keeps buckets and count in step modulo 2^64 and, while fewer than 2^64 recordings have started, the buckets ahead of the count and the reader covered |
| LatencyRace.ReaderNeverFallsThrough | openobscure-core/src/health.rs:101-117 | in every interleaving in which fewer than 2^64 recordings have started a concurrent reader answers from a bucket |
| LatencyRace.QuietBucketsSumToCount | openobscure-core/src/health.rs:92-98 | when no recorder is under way the buckets sum to the count modulo 2^64, and exactly if fewer than 2^64 recordings have started |

## Left out

- JournalCrash.TearReads: says nothing on what part of the torn line itself reads back when a single line is longer than the ring, as no line with a 36-character id is (`JournalCrash.EveryTearReads`); that nothing else does is `JournalCrash.LongTearErasesRun`.
- CrashBuffer.CrashBuffer.ReadContents: bytes are returned as they are; `from_utf8_lossy` and its replacement characters are not modelled.
- CrfScanner.ScanText: the `lower` field of tokens, feature strings and the sigmoid are parameters, so nothing is said about which words are found.
- TextScan.ScanText: scanners are taken to report spans between character boundaries of the text they see; the keyword scanner does not where lowercasing changes the length of the text, and what follows from it then is not modelled.
- JsonScan.ScanJson: two scans of the same text are taken to find the same matches, as `scan` is a function of the text. The pool of model sessions gives up after two seconds (`ner_scanner.rs:735-767`), and a thread that gets none scans without the semantic scanner; that is not modelled.
- LatencyRace.StepKeepsInv: steps are sequentially consistent, where relaxed atomics permit reordering.
- LatencyRace.ReaderNeverFallsThrough: the same, and nothing is said once 2^64 recordings have started.
- Viterbi.Viterbi: scores are reals, so floating-point rounding and the ties it makes or breaks are not modelled.
- Header tearing, memory mapping and mutex poisoning in the crash buffer.
- Tweaks and key versions in mappings, and restoring responses (`RequestMappings::decrypt_response`): its dash normalisation and fuzzy patterns are library matching; only what each new value maps back to is stated.
- Image, voice and URL passes over the body, serialization, HTTP, SSE, logging and timing.
- Encryption, hashing, base64, regular expressions and neural inference themselves.
- Model and configuration loading, device tiers, single-box validators, pixel fills and media sniffing, which would only add single-branch facts.
