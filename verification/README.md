# Verified model of memory-guard

memory-guard gates what an agent writes to and reads from its memory, and proves after a delete
that nothing of the deleted entry is left. This project models its stateful core in Dafny and
proves what that core keeps over every run: the memory stores, the residue scan, the guard with
its key policy and identities, the two behavioural inspectors, and the asynchronous audit queue.

`dafny verify dfyconfig.toml` checks all of it.

## Layout

| file | models |
|---|---|
| Text.dfy | trimming, splitting, joining, lines, decimals, the byte-wise order |
| NumberWords.dfy | folding spelled-out numbers, with int64 arithmetic, against an English printer |
| Normalize.dfy | thousands separators, k/m/b magnitudes, punctuation and white-space folding |
| Passes.dfy | what the separator and magnitude passes match, drop and rewrite |
| Spellings.dfy | all spellings of a number through all normalization passes |
| Residue.dfy | the four tiers that compare deleted content with one survivor |
| ResidueScan.dfy | the scan over every index, and what it always detects |
| Stores.dfy | InMemoryStore and TwoIndexStore |
| FileRecords.dfy, SnapshotDisk.dfy, FileStore.dfy | the JSONL snapshot, its crash-safe rewrite, FileStore |
| StoreSimulation.dfy | the three stores in lockstep |
| Principals.dfy, KeyPolicy.dfy | bound and visible keys; reserved and configured named keys |
| Guard.dfy | the guard object over the default store |
| GuardInterleaving.dfy | any number of ValidateWrite calls in flight, as separately locked steps |
| Serializability.dfy | when such calls come to what some order of one-call writes comes to |
| ReadIsolation.dfy | read non-interference over those interleavings |
| SelfReinforcement.dfy, SizeAnomaly.dfy, Inspectors.dfy | the repetition and size detectors, alone and combined |
| AsyncSink.dfy | the bounded audit queue as labelled steps |

## How to read it

A Go string is a sequence of characters that stand for its bytes. Library code and code behind a
seam is a parameter: the detectors, the glob matcher, SHA-256, the JSON line codec, the square
root, the clock, and the fresh ids. Where a theorem needs something of a parameter it says so: the
codec must put every record on one line (JSON escapes control characters in strings, section 7 of
RFC 8259) and is asked to invert only the records a statement speaks of, the hash must be injective
where two contents are compared, minted ids are fresh, and one key's clock readings do not go back.

A loop or a method that updates state is a Dafny method proved against a function or a predicate;
the laws are lemmas about those. The contracts of the main operations also say, without those functions,
what comes out in terms of what goes in: what a write keeps of its request (`IsKept`, `IsDecided`), what a
read shows (`IsReading`), which survivor is residue and by which tier (`IsResidue`, `IsMatch`), what the
lines of a file hold (`IsParse`), what counts as a repetition (`Repeats`). `Bag` is the multiset of
entries of a table, so every statement about a scan holds for every iteration order of Go's maps. Time
is in whole ticks, similarity and deviation are exact reals.

Seven things the proofs settled:

- A record whose encoded line fills the 16 MiB scanner buffer, or whose line decodes to an empty id or
  to nothing, is written by `save` without complaint and makes the next load fail, with the error of the
  first such record (`SnapshotReadsBack`, `PutThenLoad`). A snapshot reads back as the same records
  exactly when each has an id, fits, and is what its own line decodes to (`SnapshotRoundTrip`): JSON
  replaces bytes that are not UTF-8, so a record holding such bytes reads back changed.
- A configuration of the size detector never flags a size that is still in the window exactly when the
  window is smaller than the minimum number of samples, or the squared threshold is at least the window
  size less one (`ConfigurationSafeIff`). The default of three sigma covers ten samples
  (`DefaultSigmaCoversTen`), the default window holds twenty (`DefaultIsNotSafe`).
- A hidden write can change what a reader is shown, through a named key: baselines are shared by all
  writers, so under a reserved key a hidden write can get a visible one blocked (`HiddenWriteHides`,
  `ContentionHappens`). Nothing else does it: runs go undisturbed by hidden writes exactly when no
  hidden and visible write compare different contents with one reserved key's baseline, and to the last
  flag exactly when none do with a configured immutable key's baseline either (`IsolationIff`).
- A completed delete is not proof against a loss of power. `save` syncs the temp file and not the
  directory, so until the system makes the rename durable the old file, with the deleted record, may come
  back; the delete survives every loss of power exactly when the rename has become durable
  (`DeleteStaysDoneIff`).
- Without inspectors any finished writes come to what they would have come to one by one, in the order in
  which they checked the key policy (`UninspectedRunIsSerial`); with inspectors they do in any order that
  checks and inspections both follow (`FinishedRunIsSerial`), and there are runs that no order explains
  (`NoOrderExplains`). Before it finishes, a run may show a call blocked by an entry that is not there yet
  (`BlockedBeforeStored`).
- Two deletions have one digest when an id holds a NUL (`DeletionHashCollides`), and otherwise only if id
  and content are the same (`DeletionHashInjective`).
- `pruneLocked` filters in place, yet the history it leaves is always a suffix of the log: with a
  clock that does not go back, the records out of the window come first.

## Model

| member | source | states |
|---|---|---|
| NumberWords.ConsumeRun | residue.go:392-419 | the inner loop takes exactly the maximal run of number words and later "and"s and returns the run's wrapped total |
| NumberWords.AccumulatorsStayInt64 | residue.go:393-420 | whatever the words of a run, both accumulators stay in the int64 range, wrapping around |
| NumberWords.CanonicalizeNumberWords | residue.go:379-424 | the two nested loops terminate and fold the text as the specification does; every spelling of n, with or without its implied "one"s, comes out as the digits of n |
| NumberWords.SpellFolds | residue.go:392-419 | folding the English spelling of any n below 10^12 gives n and no accumulator operation leaves int64 |
| NumberWords.NumberWordsRoundTrip | residue.go:372-424 | spelling n below 10^12 as text, with "and" anywhere after the first word and "one" left out before any scale word that nothing else stands before, and folding it gives the decimal digits of n |
| NumberWords.SpelledNumberFolds | residue.go:372-424 | a number so spelled, "a thousand" included, folds to its digits inside any text whose neighbouring words are not number words or "and" |
| NumberWords.OnesAreImplied | residue.go:400-411 | a run in which "one" is left out before bare scale words folds, and overflows, as the run that spells it |
| NumberWords.SpelledWithOrWithoutOne | residue.go:400-411 | the English printer's words spell n, and still do without a leading "one" before a scale word |
| NumberWords.LeadingOneMayGo | residue.go:400-411 | on text, "thousand five hundred" and "one thousand five hundred" fold to the same digits, for every n whose spelling begins with one |
| NumberWords.TrimmedMarks | residue.go:383-398 | a full stop, comma, dollar or percent sign beside a word does not change what the word counts as |
| NumberWords.WordReadsBack | residue.go:357-370 | every number word printed is classified back as the same word |
| Normalize.GroupedStrips | residue.go:310-328 | stripping separators from n written with commas gives the digits of n |
| Normalize.MagnitudeExpands | residue.go:309-347 | an integer k/m/b form, with or without a dollar sign and a space before the suffix, expands to the digits of its value, for values below 2^53, k being a thousand, m a million and b a billion |
| Normalize.StripCommasSeam | residue.go:310-328 | no separator match crosses white space or the punctuation next to it |
| Normalize.ExpandSeam | residue.go:309-347 | no magnitude match crosses a seam after which no suffix follows |
| Normalize.FoldRunsAround | residue.go:307-352 | kept characters survive the folding passes in place while each side folds on its own |
| Normalize.GapFolds | residue.go:307-308 | every maximal run of characters that are not kept becomes one space |
| Normalize.KeptIff | residue.go:307-308 | kept are ASCII letters, digits and _ $ % . in the first folding pass, and all but the five blanks of the expression in the second |
| Passes.StripsSeparators | residue.go:310-328 | the separator pass drops exactly the commas with a digit before them and three digits after |
| Passes.FormMatches | residue.go:309-309 | a numeral, blanks or none and k, m or b with a word boundary after it is matched, to its end, and rewritten by its number and suffix |
| Passes.MatchIsForm | residue.go:309-309 | nothing else is matched |
| Passes.ExpandsForm | residue.go:330-347 | such a form at the front of a text is rewritten, behind a dollar sign or not, and the pass goes on after it |
| Passes.PassesOver | residue.go:330-347 | where no such form begins the pass keeps one character and goes on with the next |
| Spellings.SpellingsNormalizeAlike | residue.go:313-353 | words, digits, comma-grouped digits and k/m/b forms of n, the suffix attached or not, all normalize to the same digits |
| Spellings.SpellingIsField | residue.go:313-353 | inside a text, with any punctuation around it, n is one word of the normalized text, up to what is trimmed off a token |
| Spellings.MarkHidesWord | residue.go:379-391 | punctuation other than . , $ % attached to a number word keeps it from being folded |
| Spellings.NormalizedTrimSpace | residue.go:78-85 | trimming the deleted content does not change its normalization |
| Residue.DistinctiveTokens | residue.go:426-446 | the token loop returns the specified tokens |
| Residue.KeepDistinctiveIff | residue.go:426-446 | a token is kept iff it is some trimmed word that is neither short and non-numeric nor a stop word |
| Residue.StopWordsAre | residue.go:448-453 | exactly these twenty-four words are stop words |
| Residue.IsIntegerIff | residue.go:435-437 | a short token counts as numeric iff it is digits, after a sign or not |
| Residue.KeepDistinctiveOne | residue.go:429-446 | a word is kept, trimmed, once, unless it is short and no number, or a stop word |
| Residue.KeepDistinctiveAppend | residue.go:429-446 | tokens are kept word by word, in their order |
| Residue.TokensIgnoreCase | residue.go:430-430 | the tokens of a text do not depend on the case of its letters |
| Residue.ExactFragmentIs | residue.go:186-197 | tier 1 holds iff the survivor holds the text or a strong token of it; the fragment is the text, or the longest such token, first among equals |
| Residue.ExactFragmentMatch | residue.go:182-197 | the tier-1 loop returns the specified fragment |
| Residue.BestTokenIsBest | residue.go:190-196 | the fragment is a strong contained token such that none is longer and none before it as long; none exists iff it is empty |
| Residue.FirstStrongFinds | residue.go:224-231 | the tier-2 fallback is the first strong token of the text that is contained, and empty iff there is none |
| Residue.NormalizedFragmentMatch | residue.go:216-232 | the tier-2 method returns the specified fragment |
| Residue.NormalizedFragmentIs | residue.go:219-232 | tier 2 holds iff the normalized survivor holds the normalized text, if there is any, or a strong token of it; the fragment is the text, or the first such token |
| Residue.LongestPhrase | residue.go:236-261 | the nested window loops find what the specified search finds |
| Residue.BestPhraseIsBest | residue.go:236-261 | that search returns a qualifying window with the most words, leftmost among equals, and "" iff no window qualifies |
| Residue.PhraseMatch | residue.go:236-261 | for the normalized survivor, the loops return the qualifying window with the most words, leftmost among equals, and "" iff none qualifies |
| Residue.BestPhraseUnique | residue.go:236-261 | a phrase meets that description iff it is the one found |
| Residue.CountsDistinctive | residue.go:264-281 | a window's count is the number of tokens that would be kept of it |
| Residue.BestPhraseIs | residue.go:236-261 | tier 2b holds iff the normalized survivor holds some window of at least three words, three of them distinctive; the phrase is the one with the most words, leftmost among equals |
| Residue.TokenOverlapMatch | residue.go:283-302 | overlap is reported iff there are at least three tokens and seven tenths of them reappear, with the exact hit count |
| Residue.OverlapCounts | residue.go:286-302 | the hits are the places of deleted tokens that read, normalized, as some distinctive token of the survivor |
| ResidueScan.MatchSurvivor | residue.go:124-151 | a survivor is answered by the first tier that holds, each tier stated by what it looks for, with that tier's class and fragment, and with no match iff none holds |
| ResidueScan.ScanIndex | residue.go:104-120 | within one index the least matching content is reported, whatever the order of the survivors |
| Text.StrLeqIff | residue.go:88-110 | the order of names and contents is byte by byte, a prefix first |
| ResidueScan.ResidueScanIndexes | residue.go:71-122 | the answer is the first residue by index name, "primary" first and then byte by byte, and by content, with the class and fragment of its first tier; none iff no content of any index is residue by any tier |
| ResidueScan.ScanOne | residue.go:60-69 | the single-index scan is the multi-index scan over "primary" |
| ResidueScan.ScanIsOrderIndependent | residue.go:84-112 | two scans over indexes holding the same contents in any order and multiplicity answer the same |
| ResidueScan.DetectedIff | residue.go:78-122 | detection iff the trimmed content is non-empty and some survivor in some index holds it, a strong token of it, its normalization or a strong token of that, a distinctive phrase of that, or seven tenths of its tokens |
| ResidueScan.VerbatimCopyIsDetected | residue.go:186-189 | a survivor that contains the trimmed non-empty deleted text is always detected |
| ResidueScan.DetectionIsMonotone | residue.go:71-77 | adding survivors or indexes never turns a detection off |
| ResidueScan.MirrorIndexChangesNothing | residue.go:84-103 | an index that mirrors "primary" leaves the answer as it was, and "primary" is named |
| ResidueScan.SharedNumberIsFlagged | residue.go:216-232 | two normalized texts that share a number match in tier 2 |
| ResidueScan.SpellingsMatch | residue.go:313-353 | a deleted text naming n in one form matches every survivor naming it in another, whatever punctuation stands around the digits, where no neighbouring number word, "and" or bare k/m/b runs into the number |
| ResidueScan.SpellingsMeet | residue.go:313-353 | a deletion naming n in one form and a survivor naming it in another, in any index, are always detected |
| Stores.IndexOfStore | store.go:284-294 | the first place of the needle, or -1 iff it does not occur |
| Stores.KeyIn | store.go:263-273 | membership is exact equality with some visible key, and never for no keys |
| Stores.ScanTable | store.go:93-111 | a scan in any map order returns exactly the selected entries, with multiplicities |
| Stores.BagTake | store.go:93-119 | the multiset of a table's entries does not depend on the order they are taken out |
| Stores.BagIsListing | store.go:93-119 | what has a table's multiset lists each of its entries once, under distinct ids |
| Stores.SelectedIsScanned | store.go:93-111 | and so a scan returns, once each, exactly the entries that contain the query and are bound to one of the keys |
| Stores.InMemoryStore.Put | store.go:84-84 | the table is updated at that id and nowhere else |
| Stores.InMemoryStore.ScanScoped | store.go:103-111 | exactly the entries that contain the query and are bound to a visible key |
| Stores.TwoIndexStore.Put | store.go:159-172 | the content index still leads from each content to exactly the ids holding it, with no empty set |
| Stores.TwoIndexStore.Delete | store.go:179-186 | the entry leaves both indexes, which still agree; an absent id changes nothing |
| Stores.TwoIndexStore.UnindexContent | store.go:188-200 | one link is dropped, the content with its last link, and no other link changes |
| Stores.TwoIndexStore.AllByIndex | store.go:230-261 | while the indexes agree both named lists hold exactly the primary entries; a stale link, were there one, would surface its content in the second list |
| Stores.AgreementIsUnique | store.go:136-148 | the primary index determines the content index |
| Stores.ScansAgree | store.go:230-261 | the residue scan over both agreeing indexes gives the same pair as the scan over the single map, always naming "primary" |
| FileRecords.ParseStoreFile | store_file.go:84-122 | a missing file and an empty one hold no records; any other parses, line by line, to the records of its lines that are not blank, or to the kind and number of the first line that is too long, does not decode or has no id |
| FileRecords.ParseIsByLines | store_file.go:100-120 | the same of the specified parse, for every text, by the lines between its newlines |
| FileRecords.SnapshotReadsBack | store_file.go:84-145 | what save wrote parses to every record as its line reads back, or to the error, with its line number, of the first record that does not |
| FileRecords.SnapshotRoundTrip | store_file.go:84-145 | it parses to the same records iff every record has an id, fits the scanner and is what its line decodes to |
| FileRecords.PutThenLoad | store_file.go:174-189 | after a put into records that read back the file loads iff the new record reads back |
| FileRecords.PutInto | store_file.go:175-185 | the put loop replaces the first record with the id where it stands, or appends |
| FileRecords.PutIsUpdate | store_file.go:174-189 | replace-first-or-append is a map update |
| FileRecords.PutKeepsUnique | store_file.go:174-189 | a put keeps record ids unique |
| FileRecords.DeleteFrom | store_file.go:202-219 | the delete loop drops every record with the id and reports whether there was one |
| FileRecords.DeleteAppend | store_file.go:202-219 | what a delete keeps stays in its order |
| FileRecords.DeleteIsRemoval | store_file.go:202-219 | delete-all is a map removal |
| FileRecords.DeleteKeepsUnique | store_file.go:202-219 | a delete keeps record ids unique |
| FileRecords.FindIsLookup | store_file.go:191-200 | get-first is a map lookup |
| FileRecords.SelectIsBag | store_file.go:221-244 | with unique ids the file scan returns the multiset the map scan returns |
| SnapshotDisk.RunKeepsInv | store_file.go:134-172 | over any run of saves, each finished or stopped anywhere, the canonical file is whole and is what the last rename put in place or a loss of power brought back, and so is every file that may come back |
| SnapshotDisk.SaveIsAtomic | store_file.go:134-172 | within one save the canonical file, and every file that a loss of power may bring back, holds what could be there before or all the new bytes |
| SnapshotDisk.CrashLeavesOldOrNew | store_file.go:134-172 | stopping after any step, even by losing power, leaves a file that parses to the old snapshot, or one that could come back before, or the new one |
| SnapshotDisk.RenameMayBeUndone | store_file.go:157-169 | losing power after a rename may have the file from before it back |
| SnapshotDisk.DeleteStaysDoneIff | store_file.go:157-219 | a renamed delete of a present id survives every loss of power iff the rename has become durable since |
| SnapshotDisk.StaleTempIsNeverPromoted | store_file.go:134-172 | only bytes that this save truncated and wrote are ever renamed into place |
| SnapshotDisk.CompletedDeleteErases | store_file.go:200-219 | after a completed delete no temp file is left and no record with the id is in the canonical file |
| FileStores.FileStore.Save | store_file.go:134-172 | the steps of save, with writes of any size, are a run of the disk machine that ends with the new snapshot, mode 0600, no temp file, and the file it replaced still able to come back |
| FileStores.FileStore.Put | store_file.go:174-189 | the snapshot becomes the edited records; a file that does not load is a failure that changes nothing |
| FileStores.FileStore.Delete | store_file.go:202-219 | present ids are removed from the snapshot, and the replaced file may come back until the rename is durable; an absent id rewrites nothing |
| FileStores.NewFileStore | store_file.go:73-82 | construction succeeds iff the existing file parses, always where there is no file, and leaves the disk alone |
| StoreSimulation.RecordsFollowTable | store_file.go:174-219 | after any verbs the record list has unique ids, is the table, and survives a write and a read |
| StoreSimulation.NewStores | store_file.go:73-93 | new stores, the file-backed one over a path with no file, are in step and empty |
| StoreSimulation.SimulateNew | store.go:26-65 | any sequence of verbs on new stores leaves all three holding the same table |
| StoreSimulation.Simulate | store.go:26-65 | from empty stores in step, any sequence of verbs leaves the three stores holding the same table, the content index agreeing and ids unique |
| StoreSimulation.AnswersAgree | store.go:26-65 | stores in step return equal Get results, equal multisets from Scan, ScanScoped and All, and the same residue answer |
| Principals.SharedIff | principal.go:176-211 | an entry is bound to the shared marker iff its writer was attested and asked for the shared scope |
| Principals.SeesIff | principal.go:176-224 | exactly which writer's entries a reader may see |
| Principals.BoundByItsKeys | principal.go:77-211 | which keys of an identity, trimmed, give the bound key: trust_tier and scope the shared marker, else trust_tier and spiffe_id the subject, else none |
| Principals.ClassIsRead | principal.go:128-159 | the class is one of four names to the letter, or unknown; the inspectors' hint is the raw word, trimmed |
| Principals.VisibleIff | principal.go:212-224 | a reader sees the shared key, and besides only its own if it is attested and named, and the unbound one if not |
| KeyPolicy.MatchesAnyPattern | keys.go:79-91 | some pattern matches |
| KeyPolicy.ReservedPassesIff | keys.go:104-152 | a reserved write passes iff its writer is attested and its hash is the baseline's or the first; a rejection leaves the registry alone |
| KeyPolicy.ConfiguredNeverRejects | keys.go:27-31 | configured keys only flag |
| KeyPolicy.EvaluateAnswers | keys.go:104-152 | which flags a keyed write gets and when it is rejected: a reserved key rejected for its writer says only that, a drifted one only the mismatch, and configured keys both, in this order |
| KeyPolicy.EvaluateSets | keys.go:110-152 | only the first write that passes under a reserved or immutable key sets a baseline |
| KeyPolicy.EvaluatePins | keys.go:110-115 | an established baseline is never overwritten |
| Guard.MemoryGuard.ValidateWrite | guard.go:153-256 | a stored write is kept as the redaction of its text, bound to its writer, with its source class, its injection, PII, borderline, policy and inspector flags in this order, quarantined iff the borderline flag is among them; its baseline is the hash of that redaction; each inspector answers from, and is shown, the raw text; a blocked one changes nothing |
| Guard.WriteAsSaid | guard.go:153-256 | the specified write does exactly that |
| Guard.MemoryGuard.EvaluateKeyPolicy | keys.go:116-152 | the method's branches and registry update are the specified outcome |
| Guard.AskedOnce | detector_size.go:168-173 | each wrapped inspector sees an accepted write exactly once, under its writer's key alone |
| Guard.DeletionHashInjective | residue.go:454-461 | with an injective hash and no NUL in an id two deletions have one digest iff id and content are the same |
| Guard.DeletionHashTellsContents | residue.go:454-461 | under one id, whatever it holds, different contents have different digests |
| Guard.DeletionHashCollides | residue.go:454-461 | with a NUL in an id two different deletions share a digest |
| Guard.DigestsAreDisjoint | keys.go:93-102 | a deletion's digest is never a baseline's |
| Guard.WriteOutcome | guard.go:153-256 | allow, a state other than block, a minted id and one more entry go together; a blocked write leaves store, baselines and histories unchanged |
| Guard.BlockedIff | guard.go:185-216 | a write is blocked iff injection is suspected, or its key is reserved and its writer unattested or its content off the baseline |
| Guard.MemoryGuard.ValidateRead | guard.go:258-296 | the text handed to the redactor is the contents of exactly the visible, matching, unquarantined entries, each once, one newline and nothing else between two |
| Text.LinesUnique | guard.go:292-292 | contents without newlines can be read off that text again |
| Guard.ReadableIsOrdinary | guard.go:280-292 | filtering a scan's result is scanning what is not quarantined |
| Guard.MemoryGuard.ReviewQuarantine | guard.go:298-325 | only a quarantined entry is found, by its exact id, redacted again and with its flags |
| Guard.MemoryGuard.VerifyDelete | guard.go:327-382 | the id is gone and nothing else, its absence confirmed; residue is reported iff some entry that is left matches the deleted content by a tier, and is the first such by content; an absent id reports none |
| GuardInterleaving.CallIsRun | guard.go:153-256 | a request run as steps, alone, does what ValidateWrite does in one call |
| GuardInterleaving.SequentialWriteIsAfterWrite | guard.go:166-256 | without interference the separately locked steps, one for each inspector, are the one call |
| GuardInterleaving.RunKeepsInv | guard.go:166-256 | under every interleaving each stored entry is what its call decided, each id belongs to one call, and reserved keys stay pinned |
| GuardInterleaving.EntryIsItsRequest | guard.go:153-245 | in every state that requests lead to each entry is kept as its own request asks: the redaction of that request's text, bound to its writer, quarantined iff borderline |
| GuardInterleaving.BaselineIsSomeRequest | keys.go:93-152 | and each baseline is the hash of the redaction of the text of some request under its key |
| GuardInterleaving.BaselinesArePinned | keys.go:110-152 | over any number of concurrent writes a baseline, once set, never changes |
| GuardInterleaving.ReservedEntryIsBaseline | keys.go:110-152 | every entry stored under a reserved key hashes to that key's baseline |
| GuardInterleaving.ReservedEntriesAgree | keys.go:93-152 | with an injective hash all entries ever stored under one reserved key hold the same redacted content |
| GuardInterleaving.BlockedCallChangesNothing | guard.go:185-216 | no step of a call that ends blocked changes shared state, whatever runs beside it |
| GuardInterleaving.AllowedIffMinted | guard.go:191-255 | allow iff the state is not block iff exactly one id was minted for the call |
| GuardInterleaving.Partition | guard.go:274-325 | in every state that requests lead to, each live entry is offered to the read of some identity or found by review, never both |
| GuardInterleaving.ReviewIsNoOracle | guard.go:303-306 | unknown ids and ids of ordinary entries get identical review answers |
| GuardInterleaving.EntriesAreImmutable | guard.go:75-83 | an entry and its quarantine bit stay as written until deletion and never come back |
| GuardInterleaving.BitIsTheAnswer | guard.go:231-255 | the stored bit is the state the write answered with |
| GuardInterleaving.DeletedNeverReturns | guard.go:343-382 | after a delete of a minted id neither read nor review ever returns its entry |
| Serializability.FinishedRunIsSerial | guard.go:166-256 | a finished run whose checks and inspections follow an order has the baselines, logs, answers and entries of the calls made one by one in that order |
| Serializability.UninspectedRunIsSerial | guard.go:166-256 | without inspectors every finished run has those of the order of its checks |
| Serializability.NoOrderExplains | detector_size.go:187-201 | two calls checked in one order and inspected in the other are explained by no order, if the first is answered otherwise after the second |
| Serializability.CrossingHappens | keys.go:116-152 | any two contents under one configured key give such calls |
| Serializability.BlockedBeforeStored | guard.go:204-245 | a call may be blocked by a baseline while the store is still empty, which no calls made one by one show |
| ReadIsolation.KeptRun | guard.go:166-256 | unless a hidden and a visible write contend over a baseline, the steps of visible writes alone are a run, alike at every step to the full one |
| ReadIsolation.IsolationIff | keys.go:104-152 | over any set of writes, no run lets its hidden writes change a visible call's fate or a visible entry iff no hidden write of the set contends with a visible one |
| ReadIsolation.HiddenWriteHides | keys.go:110-130 | after a hidden write contended for a reserved key the visible write is blocked and its entry nowhere, though alone it would be stored under a key the reader sees |
| ReadIsolation.ContentionHappens | keys.go:104-152 | any two attested writers with subjects of their own contend over any two contents under any reserved key |
| ReadIsolation.SeparateKeysArePeaceful | keys.go:104-152 | writes without a key, or under keys that hidden and visible writers do not share, never contend |
| ReadIsolation.ConfiguredKeysArePeaceful | keys.go:27-31 | configured keys never contend over what is stored |
| ReadIsolation.ReadNonInterference | guard.go:258-296 | for every reader, attested or not: removing every write it may not see, with its deletes, leaves the contents handed to the redactor unchanged, unless a reserved key is contended |
| SelfReinforcement.OverlapCoefficient | self_reinforcement.go:233-252 | the counting loop computes the overlap coefficient |
| SelfReinforcement.OverlapBounds | self_reinforcement.go:233-252 | the coefficient is symmetric, between 0 and 1, and 1 iff one non-empty set contains the other |
| SelfReinforcement.OverlapReaches | self_reinforcement.go:233-252 | the coefficient reaches the threshold iff the two sets share at least that part of the smaller one |
| SelfReinforcement.TokenSetIff | self_reinforcement.go:224-231 | tokens are the longest runs of letters and digits, whatever their case |
| SelfReinforcement.CompactInPlace | self_reinforcement.go:180-185 | in-place compaction keeps exactly the in-window records in order |
| SelfReinforcement.PruneIsSuffix | self_reinforcement.go:172-188 | pruning an ordered history leaves a suffix |
| SelfReinforcement.PushKeepsHistory | self_reinforcement.go:148-164 | after a scrutinized write the history is the longest suffix of the log within the cap and the window |
| SelfReinforcement.HistoryInWindow | self_reinforcement.go:172-188 | with a positive cooldown the whole history is inside the window |
| SelfReinforcement.CountsAgree | self_reinforcement.go:148-156 | counting over the pruned history is counting over the last records of the full log |
| SelfReinforcement.VerdictCounts | self_reinforcement.go:137-170 | the answer counts the places among the last writes that are in the window and near-duplicates |
| SelfReinforcement.SelfReinforcementDetector.Inspect | self_reinforcement.go:130-170 | a write flags iff enough of the key's last scrutinized writes are in the window and near-duplicate; human-authored writes change nothing |
| SizeAnomaly.MeanStddev | detector_size.go:142-159 | the loops compute mean and population deviation, tied to the integer sums |
| SizeAnomaly.SigmaTest | detector_size.go:116-116 | the sigma comparison is (n x - S)^2 > sigma^2 (n Q - S^2) |
| SizeAnomaly.SpreadZeroIff | detector_size.go:98-101 | n Q - S^2 is zero iff all samples are equal |
| SizeAnomaly.EqualSamples | detector_size.go:98-101 | with equal samples a size flags iff it differs |
| SizeAnomaly.MemberIsNear | detector_size.go:142-159 | one member of n samples lies within sqrt(n-1) population deviations of the mean |
| SizeAnomaly.RepeatsSafeIff | detector_size.go:93-129 | sizes already among n samples are never flagged iff n is below the minimum or the squared threshold is at least n-1 |
| SizeAnomaly.ConfigurationSafeIff | detector_size.go:69-129 | a configuration never flags a size still in the window, whatever the log, iff the window is below the minimum or the squared threshold is at least the window size less one |
| SizeAnomaly.DefaultSigmaCoversTen | detector_size.go:69-129 | at three sigma the squared threshold reaches the sample count less one for up to ten samples |
| SizeAnomaly.DefaultIsNotSafe | detector_size.go:69-129 | the default configuration does flag such a size |
| SizeAnomaly.RepeatIsNotFlagged | detector_size.go:93-129 | such a repeat is not flagged |
| SizeAnomaly.SizeAnomalyDetector.Inspect | detector_size.go:93-129 | the answer is the one the key's last window of sizes gives: flagged iff there are enough and the size is more than sigma standard deviations from their mean; the buffer stays that window |
| SizeAnomaly.BufferIsLastSizes | detector_size.go:121-126 | in any run a key's buffer is the last sizes written under it |
| SizeAnomaly.OtherKeysDoNotShow | detector_size.go:93-129 | a key's answers in an interleaved run are those of its own writes alone |
| Inspectors.UnionFlags | detector_size.go:187-201 | the union loop returns each flag once, in order of first appearance |
| Inspectors.UnionIsUnion | detector_size.go:187-201 | the union holds exactly the flags answered, each once, ordered by first appearance |
| Inspectors.CombinedInspector.InspectFor | guard.go:227-229 | at the guard's call the detector objects answer what the inspectors behind the seam answer from the guard's log, and keep tracking it |
| Inspectors.CombinedInspector.Inspect | detector_size.go:161-201 | each detector sees the write once and answers as alone; the flags are the ordered union |
| AsyncSink.RunKeepsInv | audit.go:180-267 | in every run forwarded, in hand and buffered events are the accepted ones in order, within the capacity asked for, and every drop was with a full buffer or after Close |
| AsyncSink.EmitNeverBlocks | audit.go:220-232 | Emit has a step in every state, and none of its steps waits for or touches the drain |
| AsyncSink.EmitAccepts | audit.go:220-232 | before Close an event is accepted iff there is room; after Close it may be dropped even so, and is never dropped for lack of room |
| AsyncSink.CloseKeepsQueue | audit.go:264-267 | Close has a step in every state, may come again, and takes nothing out of the queue |
| AsyncSink.ExitForwardsAll | audit.go:234-254 | when drain exits everything accepted so far has been forwarded |
| AsyncSink.AcceptedBeforeCloseIsForwarded | audit.go:234-267 | after the exit everything accepted before Close has been forwarded |
| AsyncSink.DrainProgresses | audit.go:237-254 | after Close the drain is never stuck and each of its steps brings the exit nearer |
| AsyncSink.DrainToExit | audit.go:237-254 | run alone after Close the drain exits with everything accepted forwarded |

## Left out

- Text outside ASCII: case folding and white space beyond ASCII; the byte-wise parts hold for any bytes.
- Decimal mantissas and magnitudes of 2^53 and more go through float64 in the program; what they expand to is a parameter, so nothing is stated about their digits.
- float64 rounding in the overlap ratio, the similarity threshold and the sigma test: exact arithmetic instead.
- The rendered residue summary: the model returns its class, index, survivor and fragment, not the quoted and shortened text.
- Regular-expression detectors, Presidio, glob matching, SHA-256 and JSON: parameters.
- GuardInterleaving.RunKeepsInv: reads and reviews are not steps, because they change nothing; they are functions of the store at any state of a run.
- Guard.MemoryGuard: holds each inspector as a function of what it was shown and the log of what it was shown; `InspectFor` proves that the two detector objects answer as such functions, with the clock readings of one key in order.
- SelfReinforcement.CompactInPlace: works on an array copied out of the history; that Go's slices of one key share a backing array between calls is not modelled.
- SnapshotDisk.CrashLeavesOldOrNew: a rename is atomic, and renames become durable in the order they were made.
- Serializability.FinishedRunIsSerial: the order is asked to follow checks and inspections; runs that an order explains although they follow none are not characterized.
- Guards that share a store or a baseline registry and run concurrently, each with its own mutex: one guard is modelled.
- Audit events, the other sinks, the socket server, the command line and configuration: plumbing around this core.
