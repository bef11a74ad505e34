# Pletka: verified models of its trickiest logic

Pletka is a semantic-modelling platform written in Go with a Svelte front end. This project
models the parts of it where a small slip would be hard to notice, and proves what they are
for. Every method that changes something step by step in the program is a method here, proved
equal to a specification function on all inputs; what the program promises is then proved about
that function.

**Language files (`Bytes`, `Json*`, `Pages*`, `Sorting`).** `pletka pages` edits JSON language
files byte by byte, so that nothing but the wanted strings changes. `JsonGrammar` is the grammar
of RFC 8259 (sections 2 to 7) as concrete syntax trees that print back byte for byte;
`JsonScan` holds the hand-written scanners, on any bytes at all; `JsonAgree` shows that on
well-formed texts they land where the grammar says. `JsonStrings` and `JsonEncoding` are the
string encoder, what it copies and what it escapes. `PagesEdit` holds splicing and insertion,
`PagesTheorems` says that their result is, byte for byte, the text of the updated tree, and
`PagesLaws` what that means for a caller. `PagesText`, `PagesPatterns` and `PagesMarkers` are the
editable markdown, its expressions and its parser, `PagesHydrate` and `PagesRoundTrip` the way out and back, `PagesShown`
and `PagesHydrated` what is read from a file after one edit and after a whole hydration.

**Fixture template (`TemplateProtocol`).** Test processes race for one template database under
an advisory lock. The model is a state machine over database statements; each may fail, with or
without having taken effect, and a process may crash or lose its locking session at any point.

**Releases (`BaselineOrder`, `BaselineRun`, `ChangeLog`).** The parents-first release order over
maps with arbitrary iteration order, the run that re-pins and releases, the drain loop, and the
change log whose entries are written all or none.

**Inheritance (`Families`, `Inheritance`).** The four transactions on a project's parents, with
the database's constraints and its cycle guard.

**Indexes and merges (`Namespaces`, `ManifestMerge`, `ManifestAgree`, `Placeholders`).** Two
indexes over shared binding objects; one merge rule implemented in Go and in TypeScript;
placeholder substitution in map order.

**Access and identifiers (`Access`, `ReadScopes`, `Decimals`, `Identifiers`, `Paths`).** Roles
and capabilities, the version a request reads, and the printers and parsers of identifiers.

Where the code does something its comments or its users would not expect, the code is followed
and the exact condition is proved:

- a current template is dropped when its migration version cannot be read, since that error is
  taken for an outdated template (internal/testdb/setup.go:245-249);
- a template with the sentinel table and the binary's own migration is trusted whether or not its
  fixtures were loaded (internal/testdb/setup.go:223-256);
- with two migration versions about, a process can cut its clone from the other version's
  template, because the cut is outside of the lock (internal/testdb/setup.go:103-110);
- adding a primary parent while another one is primary always fails: the row is inserted before
  the other one is cleared (pkg/weave/project_inheritance_store.go:70-92), and the partial unique
  index `idx_wpi_primary` (pkg/database/migrations/001_baseline.sql:3053) is checked at once;
- a change set that adopted a project in a run that then failed is, in memory, no longer empty
  (pkg/weave/store.go:487), so that a second run with it closes the row without a project;
- a key of more than three parts is shown from nested blocks but written back as one dotted
  member (cmd/pages.go:726), so hydration is not a no-op for it;
- a rewritten string stays invisible if a later member of its name is no string, because the
  scanner records string members only (cmd/pages.go:1002-1007);
- resolving a localized text twice shows placeholders again, as the arguments are used up the
  first time (pkg/i18n/localized.go:269);
- the weight of a new namespace pair put once with zero counts what is bound already, so lookups
  do depend on the order of such puts (pkg/namespace/manager.go:85-87);
- a name with white space around it is one name to the Go catalog and another to Vite
  (frontend/vite.config.ts:60-69);
- an `@` in the ids of overrides can make two share one file (pkg/domain/paths.go:35-40);
- a role the tables do not know takes away the public reading of an organisation
  (pkg/auth/snapshot.go:87-89);
- a system name after an id whose project starts with an underscore is not parsed back
  (pkg/domain/semantic_id.go:57);
- slugs may be 99 bytes long, although the comment says 50 (pkg/auth/slugs.go:22-24).

## Model

| member | source | states |
|---|---|---|
| JsonScan.SkipString | cmd/pages.go:917-931 | The loop computes `StringEnd` on any bytes, unterminated strings and trailing backslashes included. |
| JsonScan.MatchBrace | cmd/pages.go:935-955 | The loop computes `BraceMatch` on any bytes: the closing brace at depth zero, or none. |
| JsonScan.SkipArray | cmd/pages.go:1037-1056 | The loop computes `ArrayEnd` on any bytes. |
| JsonScan.FindKeyObjectOpen | cmd/pages.go:884-913 | The loop computes `FindKey` on any bytes: the first `"key": {` at whatever depth. |
| JsonScan.ScanMember | cmd/pages.go:985-1021 | One member of the scan, with every error it can end in; a quotation mark as last byte makes the slice bounds invalid, which is an error here and a panic in Go. |
| JsonScan.ScanLeafStringRanges | cmd/pages.go:961-1024 | The loop computes `Scan` on any bytes. |
| JsonAgree.StringToken | cmd/pages.go:917-931 | At any JSON string, `skipString` lands just past its closing quotation mark. |
| JsonAgree.EncodedToken | cmd/pages.go:844-857 | What the encoder prints, from any bytes, is skipped as exactly one token whatever follows it. |
| JsonAgree.CloserOfNode | cmd/pages.go:935-955 | At any well-formed object or array, `matchBrace` and `skipArray` find its own closing delimiter, whatever strings and blocks are inside. |
| JsonAgree.FindEntries | cmd/pages.go:884-913 | Over the entries of a well-formed object or array the search stops at the first block of that name in document order, and passes over them if there is none. |
| JsonAgree.ScanObject | cmd/pages.go:961-1024 | On a well-formed object the scan yields exactly the ranges of its top-level string members, the last one of equal keys, and ends at its brace. |
| JsonAgree.WhiteSpaceIff | cmd/pages.go:1026 | The scanners' white space is exactly that of RFC 8259. |
| JsonStrings.EncodeWf | cmd/pages.go:844-857 | Whatever bytes are encoded, the result is the inside of a well-formed JSON string. |
| JsonStrings.DecodeEncode | cmd/pages.go:844-857 | Decoding the encoded form gives the text back, for every valid UTF-8 text. |
| JsonEncoding.CopiedIff | cmd/pages.go:844-857 | A text is copied byte for byte exactly when it is valid UTF-8 without quotation marks, backslashes, control characters, U+2028 and U+2029; any other result is longer. |
| JsonEncoding.EncodeConcat | cmd/pages.go:844-857 | After valid text, encoding goes on with what follows, so the escapes of single characters tell the whole. |
| JsonEncoding.AsciiEscapes | cmd/pages.go:844-857 | The exact escape of every ASCII character. |
| JsonEncoding.SeparatorEscapes | cmd/pages.go:844-857 | The line separators are written as `\u2028` and `\u2029`. |
| JsonEncoding.InvalidEscape | cmd/pages.go:844-857 | A byte that starts no character is written as `\ufffd`. |
| JsonEncoding.MarkupIsCopied | cmd/pages.go:847 | HTML escaping is off: `<`, `>` and `&` are copied. |
| JsonEncoding.RunesAreScalars | cmd/pages.go:844-857 | What counts as one character is the UTF-8 form of one scalar value: no overlong forms, no surrogates. |
| JsonEncoding.ScalarsAreRunes | cmd/pages.go:844-857 | And every such form counts as one. |
| JsonEncoding.DecodedIsValid | cmd/pages.go:598-608 | Decoding any JSON string yields valid UTF-8. |
| PagesEdit.ScanDisjoint | cmd/pages.go:1002-1007 | On any bytes, the ranges a scan returns lie in the data and do not overlap. |
| PagesEdit.AppendPairs | cmd/pages.go:356-369 | The loop writes the lines of the pairs, a comma after all but the last. |
| PagesEdit.HasEntries | cmd/pages.go:340-347 | Whether anything but white space stands between two positions. |
| PagesEdit.WalkBack | cmd/pages.go:376-379 | The last position before the closing brace that is not white space. |
| PagesEdit.Rebuild | cmd/pages.go:373-398 | The insertion goes after the last entry, with a comma if it has none, or replaces a blank inside. |
| PagesEdit.CreateSlugBlock | cmd/pages.go:338-399 | A new slug member at the end of `pages`. |
| PagesEdit.AppendIntoSlugBlock | cmd/pages.go:403-455 | New members at the end of the slug block. |
| PagesEdit.InsertPageKeys | cmd/pages.go:313-334 | The whole insertion equals `Insert` on any bytes, errors included. |
| PagesEdit.FindSlugBlock | cmd/pages.go:861-879 | Both searches in turn, the second one in the text before the brace that closes `pages`. |
| PagesEdit.CollectPairs | cmd/pages.go:791-795 | The updates as pairs sorted by key, whatever the map order. |
| PagesEdit.PairsAscend | cmd/pages.go:795 | New members are written by ascending key, each update once. |
| PagesEdit.SplitUpdates | cmd/pages.go:806-815 | Updates split into replacements of known ranges and missing keys, whatever the map order. |
| PagesEdit.SpliceAll | cmd/pages.go:818-830 | Splicing from right to left equals one left-to-right copy with the edits made. |
| PagesEdit.ReplaceRanges | cmd/pages.go:816-830 | Sorting by descending start and splicing equals `Patch`: bytes outside the ranges stay. |
| PagesEdit.ApplySlugUpdates | cmd/pages.go:784-839 | The whole update equals `Apply` on any bytes, errors included. |
| PagesDocument.FindsFirst | cmd/pages.go:884-913 | The search lands on the block of an entry that no earlier block of that name precedes. |
| PagesDocument.InsertedText | cmd/pages.go:373-398 | Insertion into the text of an object is the text of the object with the new entries after its own, also when it is empty or blank. |
| PagesReplace.PatchObject | cmd/pages.go:798-830 | Replacing the scanned ranges in the text of an object is the text of the object with the wanted string members rewritten and everything else as it was. |
| PagesTheorems.FindsPages | cmd/pages.go:862-869 | In a well-formed file whose first block of that name is the root's `pages`, that block and its closing brace are found. |
| PagesTheorems.FindsSlug | cmd/pages.go:870-877 | Likewise for the slug block inside it. |
| PagesTheorems.MissesSlug | cmd/pages.go:870-873 | Without a block of that name inside `pages` the second search fails. |
| PagesTheorems.InsertIntoSlug | cmd/pages.go:403-455 | Inserting pairs gives, byte for byte, the well-formed file whose slug block has the old members and then the new ones; nothing else changes. |
| PagesTheorems.InsertNewSlug | cmd/pages.go:338-399 | Inserting without a slug block gives the file whose `pages` has its old members, possibly none, and then the new block. |
| PagesTheorems.ApplyToSlug | cmd/pages.go:784-839 | `applySlugUpdates` gives, byte for byte, the file with the slug block's string members rewritten in place and other keys appended by ascending key. |
| PagesTheorems.ApplyToMissingSlug | cmd/pages.go:789-797 | Without a slug block it creates one with all the updates. |
| PagesLaws.StringsUpdated | cmd/pages.go:784-839 | The string members after an update are the old ones overridden by the encoded updates. |
| PagesLaws.Rescan | cmd/pages.go:961-1024 | Scanning a well-formed object and cutting out the ranges gives its key-to-text map. |
| PagesLaws.ApplyThenScan | cmd/pages.go:784-839 | Splicing refines map update: scanning the result finds the old key-to-text map with the encoded updates laid over it, at the same place. |
| PagesLaws.ApplyUnchangedIff | cmd/pages.go:784-839 | The file stays byte for byte the same exactly when every update is a string member already, in canonical form. |
| PagesLaws.ApplyTwice | cmd/pages.go:784-839 | A second application of the same updates returns identical bytes. |
| PagesLaws.ApplyTwiceNewSlug | cmd/pages.go:789-797 | Also when the first one created the slug block. |
| PagesLaws.FirstIff | cmd/pages.go:884-913 | The search lands on an entry's own block exactly when no earlier entry holds a block of that name at any depth. |
| PagesKeys.MapRunes | cmd/pages.go:292-302 | One byte for each character, invalid bytes included. |
| PagesKeys.Squeeze | cmd/pages.go:304-306 | The loop stops, with every run of underscores reduced to one. |
| PagesKeys.SanitizeKeyPart | cmd/pages.go:291-308 | The method computes `Sanitized`. |
| PagesKeys.SanitizedIff | cmd/pages.go:291-308 | The result is lower-case alphanumerics with single underscores strictly inside; exactly such texts are left as they are; sanitizing twice is sanitizing once. |
| PagesKeys.MapByteIs | cmd/pages.go:294-301 | Capital letters become their lower case, other letters, digits and underscores stay, all else becomes an underscore. |
| PagesKeys.SanitizedIsWords | cmd/pages.go:291-308 | The result is the words of the mapped text, in order, with single underscores between them. |
| PagesKeys.KeyPartFits | cmd/pages.go:361-363 | A sanitized key may be inserted without escaping and is a single part of a dotted key. |
| PagesText.SplitLeafIff | cmd/pages.go:717-728 | A key is split exactly when it is `pages.SLUG.REST` for a slug without dots, and REST is returned whole. |
| PagesText.Lookup | cmd/pages.go:611-626 | The loop computes `LookupParts`: a text at the end of a chain of objects, or nothing. |
| PagesText.RenderEditable | cmd/pages.go:628-644 | The method prints `Rendered`. |
| PagesText.ParseEditable | cmd/pages.go:736-776 | The method computes `Parsed` on any bytes, its three errors included. |
| PagesText.ReadValues | cmd/pages.go:756-774 | The loop over the marker matches, a later one winning. |
| PagesText.TrimLines | cmd/pages.go:769 | A text without outer white space is what trimming leaves of it between line breaks. |
| PagesPatterns.MarkerIff | cmd/pages.go:733 | At every position the scan for key markers finds the shortest match of the expression, or none. |
| PagesPatterns.FieldIff | cmd/pages.go:731-732 | A header field is found exactly where the expression matches, with the value it captures. |
| PagesPatterns.SpaceIff | cmd/pages.go:769 | What is trimmed are the UTF-8 forms of exactly the code points Go counts as white space. |
| PagesPatterns.HeaderIs | cmd/pages.go:629-630 | The printed header, for any slug and language. |
| PagesPatterns.SegmentIs | cmd/pages.go:633-642 | A key is printed in its marker, with its text or the mark for a missing value. |
| PagesPatterns.TitleIs | cmd/pages.go:1028-1033 | The heading starts with a capital letter. |
| PagesMarkers.HeaderParses | cmd/pages.go:742-754 | For names without white space and angle brackets the header gives slug and language back, and the rest is the body. |
| PagesMarkers.ReadSegs | cmd/pages.go:756-774 | A body of markers and texts without marker matches is read as the dictionary of its cleaned texts. |
| PagesMarkers.LineQuiet | cmd/pages.go:733 | Where the marker expression finds nothing in a text, it finds nothing there between line breaks either, whatever follows. |
| PagesMarkers.MissingOk | cmd/pages.go:636-638 | The text printed for a missing value meets the conditions of the round trip and is read as empty. |
| PagesMarkers.ParseRendered | cmd/pages.go:628-644 | Parsing what was printed gives the slug, the language and every printed value, missing ones empty, besides one key `...` from the instructions. |
| PagesHydrate.LeafIff | cmd/pages.go:681-695 | A leaf of a file is hydrated exactly when its full key has a value that is not empty. |
| PagesHydrate.GroupedIff | cmd/pages.go:679-696 | A leaf of a slug is updated exactly when some file gives a value for it, and the last file that does counts. |
| PagesHydrate.GroupBySlug | cmd/pages.go:679-696 | The nested loops group the values by slug, whatever the map order, later files winning. |
| PagesHydrate.HydrateLanguage | cmd/pages.go:679-704 | The groups are applied one after the other, each once, in whatever order the map gives; the first error ends it. |
| PagesRoundTrip.TextIsString | cmd/pages.go:611-626 | In a canonical block a looked-up text is a string member whose bytes are its encoding. |
| PagesRoundTrip.LookupBlock | cmd/pages.go:611-626 | A lookup below `pages.SLUG` that finds something goes through the block that the byte-level search finds. |
| PagesRoundTrip.LeafShown | cmd/pages.go:681-695 | After export and parsing, the leaves to hydrate are exactly the keys of the slug that were shown, with the shown texts. |
| PagesRoundTrip.ExtractHydrate | cmd/pages.go:459-714 | Exporting any pages and hydrating them unchanged returns the very bytes of a tidy, canonical file, in whatever order the slugs are visited. |
| PagesRoundTrip.HydratedUnchanged | cmd/pages.go:676-708 | So whatever the hydration of a language returns is the file as it was: it reports no change. |
| PagesRoundTrip.DeepKeysIff | cmd/pages.go:726 | With block names free of dots, hydration changes nothing exactly when no shown key has more than three parts. |
| PagesRoundTrip.DeepKeyExample | cmd/pages.go:726 | In `{"pages":{"home":{"a":{"b":"x"}}}}` the key `pages.home.a.b` makes it change the file. |
| PagesShown.MembersUpdated | cmd/pages.go:784-840 | The slug block after the updates decodes to the old values with the new ones over them, except for names that a later member of another kind hides. |
| PagesShown.UpdateShown | cmd/pages.go:784-840 | After the updates of an existing block, looking up `pages.SLUG.LEAF` gives the new value exactly unless a later member of that name that is no string hides the rewritten one. |
| PagesShown.NewUpdateShown | cmd/pages.go:788-796 | In a block that is created the new value is always found. |
| PagesShown.OthersShown | cmd/pages.go:784-840 | Every lookup that leads to no updated leaf finds what it found before. |
| PagesShown.HiddenExample | cmd/pages.go:784-840 | In `{"pages":{"home":{"a":"x","a":1}}}` the string is rewritten and the number still read. |
| PagesHydrated.Step | cmd/pages.go:696-708 | One group of updates keeps the file tidy, puts its values into its slug only, and leaves the blocks of all other slugs, or their absence, as they were. |
| PagesHydrated.HydratedIs | cmd/pages.go:676-708 | Hydrating any edited docs into a tidy file succeeds in every order of the slugs, keeps the file tidy, and decodes to the same values in each. |
| PagesHydrated.HydratedShows | cmd/pages.go:676-708 | After hydration every three-part key shows the value it was given, exactly unless its name was hidden before. |
| PagesHydrated.HydratedKeeps | cmd/pages.go:676-708 | Every lookup that leads to no hydrated key finds what it found before. |
| TemplateProtocol.StepExclusive | internal/testdb/setup.go:158-166 | At every step the lock is held by at most one live session, inside the critical section. |
| TemplateProtocol.StepPrepared | internal/testdb/setup.go:263-298 | At every step the lock holder has achieved what its place in the build says: no template while building, an own building that is migrated, then hydrated. |
| TemplateProtocol.StepSafe | internal/testdb/setup.go:140-341 | No step, failure, crash or lost session makes the template anything but absent or complete. |
| TemplateProtocol.InitSafe | internal/testdb/setup.go:25-54 | The safety invariant holds initially for an absent or complete template, whatever lies under the building name. |
| TemplateProtocol.TemplateAlwaysComplete | internal/testdb/setup.go:140-341 | In every run of any processes with any versions, from an absent or complete template, it is only ever absent or fully migrated and hydrated. |
| TemplateProtocol.TemplateChanges | internal/testdb/setup.go:140-298 | The template name changes only by a drop or by the promotion of a complete building, by the lock holder. |
| TemplateProtocol.InitUniform | internal/testdb/setup.go:25-54 | The invariant for one version holds initially for any template that is complete if it is at that version. |
| TemplateProtocol.InitKept | internal/testdb/setup.go:25-54 | Initially nobody trusts or is about to drop the template. |
| TemplateProtocol.ClonesAreCurrent | internal/testdb/setup.go:329-341 | With one version, in every run, every clone ever cut is current and every running process has its own, whatever template was left behind. |
| TemplateProtocol.OnlyUnreadIsDropped | internal/testdb/setup.go:223-256 | With one version, no step drops a current template unless its version could not be read. |
| TemplateProtocol.UnreadDropsTemplate | internal/testdb/setup.go:245-249 | The converse: a failing version query of the lock holder leads to the drop of the template, however current. |
| TemplateProtocol.ValidTemplateStays | internal/testdb/setup.go:140-192 | In every run with one version in which the version can be read, a current template is never dropped and everyone past the lock finds one. |
| TemplateProtocol.Rebuilds | internal/testdb/setup.go:140-256 | From any template and any leftovers at all, a waiting process gets past the lock by its own statements alone: it takes a template with the sentinel and its own migration as it is, and drops and rebuilds every other, an empty shell included. |
| TemplateProtocol.Recovers | internal/testdb/setup.go:140-192 | So it gets to a template that is current for it exactly unless it trusts one that is not complete. |
| TemplateProtocol.GivesUp | internal/testdb/setup.go:263-298 | At any other error the lock holder drops the building it created, lets go of the lock and ends; template and clones stay. |
| TemplateProtocol.LeftBehindIff | internal/testdb/setup.go:274-284 | A failed build leaves its database behind exactly when the holder dies or loses its session, cannot clean up, or is told its creation failed. |
| TemplateProtocol.NoBuildingLeft | internal/testdb/setup.go:258-262 | In every run without these, whatever else fails, the building name is free whenever the lock is. |
| TemplateProtocol.CloneLeftIff | internal/testdb/setup.go:108-111 | A clone outlives its process exactly when the process dies or cannot drop it. |
| TemplateProtocol.CutAndDrop | internal/testdb/setup.go:329-356 | A process cuts its clone from the template as it is and drops it in the end. |
| TemplateProtocol.OvertakenCut | internal/testdb/setup.go:103-110 | From any safe state: a process about to cut, overtaken by an idle one of another version, has a run in which it runs on a clone of that other version. |
| TemplateProtocol.TwoVersionsMismatch | internal/testdb/setup.go:103-110 | Any two processes of different versions have a run from the start in which one runs on a clone that is not current for it. |
| TemplateProtocol.MismatchIff | internal/testdb/setup.go:103-110 | So some run from the start ends in such a mismatch exactly when two processes carry different versions. |
| TemplateProtocol.MixedVersions | internal/testdb/setup.go:103-110 | An instance. |
| BaselineOrder.DeleteEverywhere | cmd/release_baseline.go:226-228 | The loop removes an id from every parent set. |
| BaselineOrder.Pass | cmd/release_baseline.go:220-231 | One pass keeps the loop's meaning, and either orders somebody or leaves everybody waiting for a pending parent. |
| BaselineOrder.CollectPending | cmd/release_baseline.go:233-237 | The pending ones, each once. |
| BaselineOrder.ReleaseOrder | cmd/release_baseline.go:216-241 | Whatever the map order: the pending projects are split into ordered and blocked ones without loss or repeat, every pending parent of an ordered one is earlier, and blocked are exactly those from which a parent cycle is reachable. |
| BaselineOrder.StuckReaches | cmd/release_baseline.go:214-215 | Whoever is left waiting reaches a cycle (by the pigeonhole principle). |
| BaselineOrder.OrderedIsFree | cmd/release_baseline.go:214-215 | No ordered project reaches one. |
| BaselineOrder.StillStuck | cmd/release_baseline.go:233-237 | The blocked projects reach a cycle among themselves. |
| BaselineRun.Database.Repin | cmd/release_baseline.go:106-111 | Exactly the project's links that follow the draft are pinned. |
| BaselineRun.Database.ReleaseOne | cmd/release_baseline.go:98-127 | One project, called only when its parents have the release: each link it pins points to a release that exists, and its own release archives no link that follows a draft. |
| BaselineRun.Database.ReleaseAll | cmd/release_baseline.go:98-127 | The loop keeps that and stops at the first failure, with the projects so far released and only their links pinned; each release it cut shows all the links of its project, and the reported number is how many it cut. |
| BaselineRun.Database.ReleaseBaseline | cmd/release_baseline.go:56-145 | The whole command for any answers of the release service: what is released, pinned, archived and reported, the number included; every changed link points to a release that exists, and no release it cuts shows a link that follows a draft. |
| BaselineRun.Satisfied | cmd/release_baseline.go:99-111 | When a project's turn comes, all its parents have the release. |
| BaselineRun.BlockedUntouched | cmd/release_baseline.go:87-92 | Blocked projects are not released and their links stay as they were. |
| BaselineRun.Rerun | cmd/release_baseline.go:30-41 | After a full run exactly the blocked ones are pending, and a second run orders none of them. |
| BaselineRun.Drain | cmd/release.go:144-160 | Whatever processing does, the drain takes no more passes than the starting count, every pass but the last makes progress, and it ends at zero, without progress, or with the first error. |
| ChangeLog.ChangeLogger.Record | pkg/weave/changelogger.go:39-68 | An entry is kept exactly when it obeys the payload rules of its operation. |
| ChangeLog.ObeysIff | pkg/weave/changelogger.go:39-68 | Which of the two payloads there are tells the one operation that is allowed. |
| ChangeLog.ChangeLogger.Call | pkg/weave/store.go:473-475 | What is pending after any callback, and whether it succeeded. |
| ChangeLog.SingleEntryProjectId | pkg/weave/store.go:510-523 | The result is the one project that all entries with a project share, or "" if there is none. |
| ChangeLog.Store.WithChangeLog | pkg/weave/store.go:452-505 | For a failure at any statement: on success the log is the old one plus the recorded entries in order, the set is closed and no other set touched; on failure the tables are the old ones; and what is left in memory. |
| ChangeLog.WithImplicitChangeSet | pkg/weave/store.go:526-576 | An implicit change set is created outside of the transaction, so a failed run leaves it open. |
| ChangeLog.WriteEntries | pkg/weave/changelogger.go:71-88 | The entries are written in order, or not all of them. |
| ChangeLog.LogIsJournal | pkg/weave/store.go:452-505 | Over any number of runs, failing and tried again as they may, the log is what was there plus the records of the successful runs, in order, each once and all obeying the rules. |
| ChangeLog.ClosedIff | pkg/weave/store.go:495-497 | A change set is closed exactly when it was or when a run on it succeeded; it is never opened again. |
| ChangeLog.ProjectLostIff | pkg/weave/store.go:483-489 | Over any number of runs a change set ends with another project in memory than in its row, the row having none, exactly when the run that adopted the project failed. |
| ChangeLog.FilledIff | pkg/weave/store.go:483-489 | An empty set is filled exactly when the entries agree on a project, if memory and row agree. |
| ChangeLog.RetryFillsIff | pkg/weave/store.go:487 | After a failed run a second one fills the row exactly when the first had not adopted a project. |
| ChangeLog.RetryLosesProject | pkg/weave/store.go:487 | An instance in which the project is lost. |
| Families.ViewOrder | pkg/weave/project_inheritance_store.go:279-283 | In the listing rows stand by ascending order, equal orders by ascending parent. |
| Families.NormalizeOrder | pkg/weave/project_inheritance_store.go:275-308 | Orders become 0 to n-1 along the listing, which stays the same; nothing else changes. |
| Lexicographic.LessIff | pkg/weave/project_inheritance_store.go:279-283 | Ascending byte by byte: a proper prefix first, else the smaller byte where two ids first differ. |
| Families.EnsureSinglePrimary | pkg/weave/project_inheritance_store.go:239-273 | The first row by primary, order and parent becomes the only primary. |
| Families.SyncedColumn | pkg/weave/project_inheritance_store.go:218-237 | The column is that row's parent, or null. |
| Families.Settle | pkg/weave/project_inheritance_store.go:92-100 | The three together make any rows with at most one primary good, keep the listing and an existing primary, and otherwise choose the first. |
| Families.OthersKeepOrder | pkg/weave/project_inheritance_store.go:279-283 | Adding, rewriting or removing a row keeps the relative order of the others. |
| Families.Place | pkg/weave/project_inheritance_store.go:190-201 | The loop over the given order, skipping blank and foreign ids. |
| Families.PlacedAt | pkg/weave/project_inheritance_store.go:190-201 | A listed parent gets its last place in the list. |
| Families.PlacedNot | pkg/weave/project_inheritance_store.go:190-193 | A blank id, or one not listed, moves nothing. |
| Families.FullReorder | pkg/weave/project_inheritance_store.go:190-201 | A list of all parents, each once, becomes the listing. |
| Inheritance.IsAncestor | pkg/database/migrations/004_inheritance_cycle_guard.sql:27-34 | The trigger's recursive query finds exactly the ancestors, and ends. |
| Inheritance.StaysAcyclic | pkg/database/migrations/004_inheritance_cycle_guard.sql:13-44 | A link the guard lets through closes no cycle. |
| Inheritance.AcyclicNeverBlocks | cmd/release_baseline.go:214-215 | Without cycles no project is ever blocked in a baseline release. |
| Inheritance.InheritanceStore.Add | pkg/weave/project_inheritance_store.go:63-105 | It commits exactly when the database accepts the row, keeps the good state and all other projects; the others stand before the new parent exactly when their order, or with equal orders their id, is less; and it says who is primary, or why it was refused. |
| Inheritance.AddedLast | pkg/weave/settings/handler.go:932-939 | A new parent whose order is not below the number of parents comes last. |
| Inheritance.SourceIff | pkg/weave/project_inheritance_store.go:344-359 | The mode `release` needs a version; every other counts as draft and must have none. |
| Inheritance.InheritanceStore.Remove | pkg/weave/project_inheritance_store.go:107-133 | The good state is kept, the survivors keep their order, and the primary stays or passes to the first of them. |
| Inheritance.InheritanceStore.SetPrimary | pkg/weave/project_inheritance_store.go:135-177 | It fails exactly for a missing link, and otherwise changes the primary and the column only. |
| Inheritance.InheritanceStore.Reorder | pkg/weave/project_inheritance_store.go:179-216 | The good state and the primary are kept; a full list becomes the listing; an empty one changes nothing. |
| Inheritance.PrimaryOnlyFirst | pkg/weave/project_inheritance_store.go:70-92 | In a good state a primary link to another parent is accepted only for a project without parents. |
| Inheritance.RemoveUndoesAdd | pkg/weave/project_inheritance_store.go:107-133 | Removing a link that was just added restores the project entirely. |
| Namespaces.SortBucket | pkg/namespace/manager.go:169-186 | A bucket becomes a permutation of itself sorted by descending weight, then by the other part. |
| Namespaces.Store.SortAll | pkg/namespace/manager.go:169-186 | All buckets of both indexes are sorted, the bindings and their weights kept. |
| Namespaces.Store.Put | pkg/namespace/manager.go:61-94 | Both indexes go on holding the same objects, each pair once and sorted; the weight is the given one, or for a new pair and zero the default; a known pair really gets zero. |
| Namespaces.PutWins | pkg/namespace/manager.go:61-94 | After a put the pair wins, for its prefix and for its base, exactly when it has more weight than every rival, or as much and the smaller name. |
| Namespaces.Store.GetWithPrefix | pkg/namespace/manager.go:96-105 | The result is the base that wins among the weights on record. |
| Namespaces.Store.GetWithBase | pkg/namespace/manager.go:107-116 | Likewise for prefixes. |
| Namespaces.Store.GetSearchLabel | pkg/namespace/manager.go:118-130 | A uri with a base gets the label of the winning prefix and its local name, or none if the base is unbound; one without a base is its own label. |
| Namespaces.Store.Expand | pkg/namespace/manager.go:132-148 | Absolute and colon-free inputs stay; otherwise the winning base replaces the prefix. |
| Namespaces.OneWinner | pkg/namespace/manager.go:163-168 | There is one winner, so every lookup depends on the weights alone. |
| Namespaces.LastWeightIff | pkg/namespace/manager.go:61-94 | After any puts a pair has the weight it was given last exactly unless it was new, given once, and given zero. |
| Namespaces.OrderDoesNotMatter | pkg/namespace/manager.go:163-168 | Without such a pair the order of the puts does not matter, only the last weight of each pair. |
| Namespaces.ZeroWeightsDepend | pkg/namespace/manager.go:85-87 | With two of them it does: the base put second wins. |
| Namespaces.SplitParts | pkg/namespace/manager.go:35-46 | Base and local name make up the uri, and the local name cannot be split further. |
| Namespaces.ExpandIs | pkg/namespace/manager.go:132-148 | For any weights: `http://` and `https://` inputs and inputs without a colon come back as they are; of others the part before the first colon is looked up, and there is no answer exactly when nothing is bound to it. |
| Namespaces.ExpandReturnsIff | pkg/namespace/manager.go:132-148 | Expanding a prefix and the local name of a uri gives that uri exactly when the input does not look absolute and the uri's base wins for the prefix. |
| Namespaces.AbsoluteInputStays | pkg/namespace/manager.go:133-135 | An instance: `http:` and `//y` look absolute although base and prefix win for each other. |
| Namespaces.SameLabelIff | pkg/namespace/manager.go:118-130 | For winning prefixes without an underscore two uris share a label exactly when they share winning prefix and local name. |
| Namespaces.LabelsTellApart | pkg/namespace/manager.go:118-130 | If their bases win for those prefixes as well, a label stands for one uri only. |
| ManifestMerge.MergeIff | pkg/frontendmanifest/manifest.go:152-177 | The rule accepts exactly the lists in which every name occurs once, or as a core entry and then one that overrides it; the last occurrence wins. |
| ManifestMerge.Catalog.AddEntries | pkg/frontendmanifest/manifest.go:154-174 | The inner loop accepts exactly what the rule accepts and shows its table. |
| ManifestMerge.Catalog.AddManifest | pkg/frontendmanifest/manifest.go:152-177 | The same over all kinds of a manifest. |
| ManifestMerge.NewCatalog | pkg/frontendmanifest/manifest.go:87-98 | The catalog accepts a list of manifests exactly when it accepts every kind's entries, manifest by manifest. |
| ManifestMerge.ListedFrom | pkg/frontendmanifest/manifest.go:152-162 | Every entry comes from one manifest and carries its path and core flag. |
| ManifestMerge.ListedAll | pkg/frontendmanifest/manifest.go:92-96 | Every entry of every manifest is listed, earlier manifests first. |
| ManifestMerge.WinnerFrom | pkg/frontendmanifest/manifest.go:152-177 | What the catalog holds for a name is an entry of that name of some manifest, with that manifest's path and core flag. |
| ManifestAgree.ReadIff | frontend/vite.config.ts:60-69 | Which entries Vite reads, character by character, and that only white space around the name is lost. |
| ManifestAgree.ResolveKind | frontend/vite.config.ts:166-188 | The TypeScript loop accepts exactly what the rule accepts, and its array holds the winners. |
| ManifestAgree.ValidateContributionDuplicates | frontend/vite.config.ts:165-190 | The same for all kinds. |
| ManifestAgree.SameVerdict | pkg/frontendmanifest/manifest.go:152-177 | On lists with readable entries and trimmed names the two accept the same and pick the same winners. |
| ManifestAgree.SameWinners | frontend/vite.config.ts:172-176 | The array determines the winners: it fits one table only. |
| ManifestAgree.AcceptedByVite | frontend/vite.config.ts:60-69 | On all readable lists, whatever white space is around names, what Vite accepts Go accepts. |
| ManifestAgree.VerdictsDifferIff | frontend/vite.config.ts:60-69 | The verdicts differ exactly when every name is unambiguous as written but some name is not once trimmed. |
| ManifestAgree.UntrimmedDiffer | frontend/vite.config.ts:60-69 | An instance. |
| Placeholders.ApplyArgs | pkg/i18n/localized.go:90-98 | The loop substitutes in some order of the names, and returns early only where nothing could change. |
| Placeholders.AnyOrderFills | pkg/i18n/localized.go:90-98 | For templates, names and values without stray braces every order is simultaneous substitution. |
| Placeholders.SubstitutedIsFilled | pkg/i18n/localized.go:90-98 | For those the loop's result is determined: it is the simultaneous substitution. |
| Placeholders.NestedBracesDepend | pkg/i18n/localized.go:94-96 | `{{a}}` shows that the condition is needed. |
| Placeholders.LocalizedText.Enrich | pkg/i18n/localized.go:233-271 | Bundle values over fallbacks, every text substituted, the arguments used up. |
| Placeholders.LocalizedText.Marshal | pkg/i18n/localized.go:51-63 | The texts as they are after resolution, substituted without it. |
| Placeholders.FilledIff | pkg/i18n/localized.go:90-98 | Substitution leaves a text alone exactly when the arguments name none of its placeholders, whatever their values. |
| Placeholders.ResolvedTwice | pkg/i18n/localized.go:233-271 | Over two resolutions, in every language: the second keeps what the first showed exactly unless the bundle provides that language with a placeholder the arguments had filled. |
| Placeholders.PlaceholderReappears | pkg/i18n/localized.go:265-270 | An instance: `{v}` with 1 for v shows `1`, then `{v}`. |
| Access.MonotoneIff | pkg/auth/snapshot.go:46-180 | With higher roles, more owned projects or super-admin, no capability is lost, exactly unless a first, unknown organisation role takes the place of public reading. |
| Access.Monotone | pkg/auth/snapshot.go:46-180 | So for recognised roles none is ever lost, the creator-of-draft rule included. |
| Access.EffectiveRank | pkg/auth/snapshot.go:46-117 | On a project the effective role is the highest of ownership, organisation, membership and public reading. |
| Access.CanOnProject | pkg/auth/capabilities.go:141-200 | A capability on a project is held exactly from a lowest rank on, or by the creator of a draft who can read it. |
| Access.CanOnOrg | pkg/auth/capabilities.go:171-175 | A capability on an organisation is held exactly from a lowest rank on: reading 1, editing, managing members and creating projects 2, deleting 3. |
| Access.RoleNames | pkg/auth/snapshot.go:106-111 | The ranks by the names of the roles; other names have none. |
| Access.StrangersRead | pkg/auth/snapshot.go:46-56 | Without a snapshot exactly what is public can be read. |
| Access.OnlySuperElsewhere | pkg/auth/snapshot.go:157-163 | A super-admin may do everything, and nobody else anything outside projects and organisations. |
| Access.MemberIff | pkg/auth/snapshot.go:131-151 | Membership takes ownership or some role on the project or its organisation, never publicity. |
| Access.UnknownRoleTakesAway | pkg/auth/snapshot.go:86-93 | An instance in which one is. |
| Access.EditorsAreMembers | pkg/auth/snapshot.go:131-151 | A signed-in holder of project edit is a project member. |
| ReadScopes.SafeRequestsRefine | pkg/auth/project_version.go:42-116 | The two middlewares serve every safe request whose lookup succeeds at exactly the decided scope. |
| ReadScopes.FailedLookup | pkg/auth/project_version.go:103-107 | A failed lookup serves the named version or the working state. |
| ReadScopes.EveryRequest | pkg/auth/project_version.go:42-116 | Whoever reaches a handler has a valid scope equal to the ambient version; mutations run on the draft or are refused. |
| ReadScopes.WhoSeesTheDraft | pkg/auth/project_version.go:63-77 | Without a named version the draft is seen exactly outside public projects and by their editors, once there is a release; everybody else gets the latest one. |
| Decimals.ParseItoa | pkg/domain/example.go:139-141 | Parsing a printed number gives it back, up to the largest 64-bit one. |
| Decimals.ParseSigned | pkg/domain/semantic_id.go:76 | Signs are read, and numbers beyond 64 bits become the nearest one. |
| Identifiers.ParsePrinted | pkg/domain/semantic_id.go:8-17 | `PF.n`, `PM.n`, `PC.n`, `P.CAT.n` and `P.CL.n` are read as number n of project P with that code. |
| Identifiers.KindIff | pkg/domain/semantic_id.go:28-34 | The kind of any parsed id goes with its code: F field, M model, C collection, CAT category, CL concept list. |
| Identifiers.CanonicalIsFixed | pkg/domain/semantic_id.go:48-110 | The canonical form of any valid id parses to the same parts, saturated numbers included, and prints as itself. |
| Identifiers.SystemNameIff | pkg/domain/semantic_id.go:162-167 | A system name is parsed back exactly when the project does not start with an underscore. |
| Identifiers.SlotLeafIff | pkg/domain/example.go:153-177 | The parser accepts exactly the printed slots of positive overrides. |
| Identifiers.OneSegment | pkg/domain/example.go:143-149 | A path of one segment has depth 1, the empty one 0. |
| Identifiers.AppendedSlot | pkg/domain/example.go:139-149 | A slot appended to a path is its leaf and makes it one deeper. |
| Identifiers.GroupSegmentIff | pkg/domain/example.go:181-198 | The parser accepts exactly the printed segments of non-empty, slash-free collections. |
| Paths.FilePathInjective | pkg/domain/paths.go:20-45 | Entities of known types never share a file, if no model, collection or owner id has a slash and no override's field id an `@`; all other ids are arbitrary. |
| Paths.OverridesShareIff | pkg/domain/paths.go:35-40 | Two overrides of one type share a file exactly when owner and joined `field@entity` agree. |
| Paths.AtSignsCollide | pkg/domain/paths.go:35-40 | An instance. |
| Paths.PatternIff | pkg/auth/slugs.go:22-35 | The pattern accepts exactly lower-case alphanumerics with single separators strictly between them, 2 to 50 alphanumerics in all. |
| Paths.MatchesAreShort | pkg/auth/slugs.go:22-35 | Accepted slugs have 2 to 99 bytes. |
| Paths.NinetyNineMatch | pkg/auth/slugs.go:22-35 | 99 are reached. |

## Left out

- YAML front matter, `promoteWalk` and the collection of keys from pages: they rest on yaml.v3; a page's ordered keys are an input here, and no uniqueness of promoted keys is claimed.
- PagesRoundTrip.ExtractHydrate: asks for a file with one `pages` block and one block per slug, found first by their names, canonical strings and unescaped names, shown texts that are trimmed and hold no marker match, and three-part keys; `PagesRoundTrip.DeepKeysIff` gives the exact role of the last condition.
- PagesHydrated.HydratedIs: asks for a tidy file as above, unescaped keys, valid UTF-8 values, and, for a slug that has no block yet, that `pages` holds no block of its name at any depth and no member of its name.
- PagesTheorems.InsertIntoSlug: inserted keys are written as they are, so they must be contents of JSON strings; an empty list of pairs is excluded, as every caller does.
- JsonStrings.DecodeEncode: the encoder and decoder are models of Go's encoding/json, as are white space trimming, the regular expressions and number parsing of theirs; invalid UTF-8 decodes to replacement characters and is only covered by `JsonStrings.EncodeWf`.
- ManifestAgree.SameVerdict: JavaScript's `trim` is modelled by Go's, which differ for U+0085 and U+FEFF; source files and their suffixes are a given predicate, and the order of Vite's arrays beyond their winners is not compared.
- TemplateProtocol.ClonesAreCurrent: the names of clones are given, a clone left behind by a crash makes a later cut under the same name fail; which migrations a version stands for is not modelled, only the highest applied one.
- BaselineRun.Database.ReleaseBaseline: parents are taken to be draft shells; the release service answers as it likes, and all it archives with a release it cuts are the project's links; git materialization is not modelled.
- Inheritance.InheritanceStore.Add: blank adoption times, the trimming of versions and the database's collation are not modelled; parents with equal orders are listed by byte-wise order.
- Placeholders.LocalizedText.Enrich: the reflection walk over schemas, the storage behind the bundle and its logging are inputs.
- Namespaces.Store.Put: locking, and callers that change the weight of a binding object they were given.
- Access.Monotone: generator formats (`CanDerivative`), how a snapshot is built, sessions and tokens.
- Paths.PatternIff: the list of reserved slugs.
- Files, HTTP, command lines, SQL statements as text, form schemas, the Svelte front end, the ontology, override and resolver packages: plumbing or not needed for the above.
