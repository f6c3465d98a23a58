# cloud-uno core, modelled in Dafny

This project models the parts of cloud-uno (a local emulator of Google Cloud
services) that decide what the program does, and proves properties of them:

- **The hosts-file manager** (`pkg/hosts/entries.go`, `pkg/hosts/manager.go`).
  A hosts-file line is parsed into an `Entry` and printed back. The `Manager`
  holds the file as an ordered list of entries plus a `hasCloudUnoSection`
  flag. `Add` and `Remove` edit the section the tool owns: the lines between
  `# Added by Cloud::1` and `# End of Cloud::1 section`.
  - `HostsEntries` models the entry datatype: `NewEntry`, `Export`, the marks
    and the per-entry edits.
  - `HostsDocument` states what each manager step does to the list of
    entries, as functions, and proves the properties of those steps.
  - `HostsManager` holds the `Manager` class. Its fields are the file's
    lines, the entries and the section flag. Its methods keep the loops of
    the Go code and are proved equal to the `HostsDocument` functions.
- **The Secret Manager engine** (`pkg/gcloud/grpc/secretmanager.go`), in
  module `SecretStore`. It stores secrets and their versions in an afero file
  system, modelled as a class `FileSystem` whose field is a map from path to
  bytes. `SecretManager` is a class whose methods are proved equal to
  functions that give the result and the files afterwards.
- **The REST controller** (`internal/gcloud/httpapi/secretmanager.go`), in
  module `SecretManagerApi`, and **the error responses**
  (`pkg/httputils/httputils.go`), in module `HttpUtils`. Each handler is a
  function from the route variables, the request body and the service's
  answers to the request handed to the service and the response written.
- **Small helpers**:
  - the hosts agent's gRPC client and server (`pkg/hosts/grpc.go`), in
    module `HostsAgent`;
  - `CommaSeparatedListContains` (`pkg/utils/utils.go`), in module `Utils`;
  - `SelectServerIP` (`pkg/netutils/ip.go`), in module `NetUtils`.

`GoStrings` models the parts of Go's `strings`, `sort` and `strconv` that the
code relies on. `Errors` models the error values: gRPC statuses and the
plain errors the code builds.

Foreign code is a parameter of the model:

- `net.ParseIP` is a predicate `isIP`. The one assumption made about it is
  `IPLiteralsAreTokens`: an IP literal is non-empty and holds no white space
  and no `#`.
- protojson and encoding/json are codecs (`Codec`, `ProtoJson`). The lemmas
  that need a round trip require it explicitly (`RoundTrips`).
- `copier.Copy` of the version manifest is a flag, `copierSharesMap`: whether
  the copy shares the version map with the original.
- The clock and `uuid.NewRandom` are arguments.

Where the behaviour described for the system and the code disagree, the model
follows the code:

- A line whose first word is not an IP keeps that word as its IP and the
  rest as its hosts. Only its error flag is set (`pkg/hosts/entries.go:53-58`).
- The persisted version counter does not advance
  (`pkg/gcloud/grpc/secretmanager.go:184-186`).
- `clean` and `removeHostsFromOtherIPs` edit entries outside the owned
  section too (`pkg/hosts/manager.go:247-263`).
- A request body that fails to decode in `AddVersion` is answered with
  500, not 400 (`internal/gcloud/httpapi/secretmanager.go:78-82`).

The model follows the first and third places as written and gives them no
corrected definition. The Findings section below lists the second and fourth,
together with three defects of the hosts manager (the appending reload, the
unmarked rebuilt line on Remove and the close line found by exact text) and
the secret listing that reads each version manifest as a secret. Each row has
an as-written member and a corrected one.

## Model

| member | source | states |
|---|---|---|
| HostsEntries.CommentLineIsTrimPrefix | pkg/hosts/entries.go:131-133 | a line is a comment line exactly when its trimmed text starts with `#` |
| HostsEntries.CommentLineMeans | pkg/hosts/entries.go:131-133 | a comment line is one whose first non-space character is `#` |
| HostsEntries.NewEntry | pkg/hosts/entries.go:32-61 | the parsed entry keeps the line as its raw text and carries no marks |
| HostsEntries.NewEntryOfCommentLine | pkg/hosts/entries.go:36-69 | a comment line parses to an entry holding only the line, and prints back unchanged |
| HostsEntries.NewEntryOfDataLine | pkg/hosts/entries.go:40-58 | for a data line the comment is the text between the first and second `#`; the IP is the first word and the hosts the other words; the error flag is set iff the first word is not an IP; a line with no words gives no IP and no hosts |
| HostsEntries.BlankLine | pkg/hosts/entries.go:47-75 | a blank line gives an empty entry, which prints as a single space |
| HostsEntries.NewEntryWellFormed | pkg/hosts/entries.go:32-61 | every parsed line is a well-formed entry: a comment holds nothing else, and a data line's IP is a word without `#` |
| HostsEntries.DataLineNotComment | pkg/hosts/entries.go:65-76 | the printed form of a data entry is never read back as a comment line |
| HostsEntries.DataLineWords | pkg/hosts/entries.go:47-75 | the words of a printed data line are its IP followed by its hosts |
| HostsEntries.ExportParses | pkg/hosts/entries.go:32-76 | round trip: parsing a printed data entry gives back its IP, hosts and comment, when the hosts are words and neither they nor the comment hold `#` |
| HostsEntries.PrintedLineParses | pkg/hosts/entries.go:32-76 | a line made of words, optionally followed by ` #` and a comment, parses to those words and that comment |
| HostsEntries.ParsedDataLine | pkg/hosts/entries.go:40-58 | a data line parses to its first word as IP, its other words as hosts, and the text after `#` as comment |
| HostsEntries.LineParts | pkg/hosts/entries.go:71-75 | where the `#` of a printed data line falls, and what precedes and follows it |
| HostsEntries.Mark | pkg/hosts/entries.go:82-84 | after marking, the entry holds the mark, the old marks and no others; nothing else changes and the printed line is the same |
| HostsEntries.IsMarkedWith | pkg/hosts/entries.go:88-96 | the loop answers true exactly when the mark is among the entry's marks |
| HostsEntries.RemoveDuplicateHosts | pkg/hosts/entries.go:100-111 | the entry keeps the same set of hosts, each once, in no stated order, and its raw line is printed again |
| HostsEntries.Combine | pkg/hosts/entries.go:114-122 | the other entry's hosts are appended, the comments joined with a space (or the other's taken when this one has none), the raw line is the other entry's printed line, and nothing else changes |
| HostsEntries.SortHosts | pkg/hosts/entries.go:125-128 | the hosts become a sorted permutation of themselves and the raw line is printed again |
| HostsEntries.RegenerateExport | pkg/hosts/entries.go:154-156 | only the raw line changes, and it is the printed line when there is no comment |
| HostsEntries.RegenerateDropsComment | pkg/hosts/entries.go:154-156 | the rebuilt line drops the comment: no `#` in it when the IP and hosts hold none |
| HostsEntries.InsertIntoSlice | pkg/hosts/entries.go:160-167 | inserting at a valid index gives the prefix, the value, then the rest |
| Errors.CodeOf | pkg/httputils/httputils.go:40 | an error has a gRPC code exactly when it is a status error |
| GoStrings.Fields | pkg/hosts/entries.go:47 | every field is a non-empty string without white space |
| GoStrings.FieldsOfJoin | pkg/hosts/entries.go:75 | words joined by single spaces, plus trailing white space, split back into the same words |
| GoStrings.Split | pkg/hosts/manager.go:108 | one more piece than separators, at least two when the separator occurs, and no piece holds the separator |
| GoStrings.JoinSplit | pkg/utils/utils.go:22 | splitting and joining again with the separator gives back the string |
| GoStrings.SplitJoin | pkg/utils/utils.go:22 | joining pieces without the separator and splitting again gives back the pieces |
| GoStrings.Index | pkg/hosts/entries.go:42-44 | the first occurrence of the character, or -1 when it does not occur |
| GoStrings.SplitAtFirst | pkg/hosts/entries.go:42-44 | the first piece of a split is the text before the first separator, and the rest is the split of what follows it |
| GoStrings.TrimSuffix | pkg/gcloud/grpc/secretmanager.go:73 | with the suffix present, the result plus the suffix is the string; otherwise the string is unchanged |
| GoStrings.RemoveFirst | pkg/hosts/manager.go:318 | removing the first occurrence of a character shortens the string by one, or changes nothing when the character is absent |
| GoStrings.LastIndex | pkg/gcloud/grpc/secretmanager.go:216-217 | the last occurrence of the character, or -1 |
| GoStrings.LastPiece | pkg/gcloud/grpc/secretmanager.go:216-217 | the last piece of a split is the text after the last separator |
| GoStrings.SortStrings | pkg/hosts/entries.go:126 | the result is sorted and is a permutation of the input |
| GoStrings.SortedUnique | pkg/hosts/entries.go:126 | two sorted permutations of the same strings are equal, so any sort gives the same result |
| GoStrings.NoDuplicatesMultiset | pkg/hosts/entries.go:100-111 | two lists without repeats that hold the same strings hold each string equally often |
| GoStrings.Dedup | pkg/hosts/entries.go:101-109 | the distinct elements, each once |
| GoStrings.Without | pkg/hosts/manager.go:189-194 | the elements not listed to drop, and no more than the input holds |
| GoStrings.WithoutTwice | pkg/hosts/manager.go:248-255 | dropping hosts one at a time equals dropping them all at once |
| GoStrings.IntToDecimalInjective | pkg/gcloud/grpc/secretmanager.go:208 | distinct version numbers print as distinct decimal strings |
| HostsDocument.CommentText | pkg/hosts/manager.go:317-319 | normaliseComment of a comment line is the trimmed text after its `#` |
| HostsDocument.SentinelLines | pkg/hosts/manager.go:145-156 | the lines Add writes are recognised as the open and close sentinels, and never as each other |
| HostsDocument.SentinelEntries | pkg/hosts/manager.go:145-156 | the sentinel entries Add writes are well-formed comment entries that the two sentinel tests accept |
| HostsDocument.SentinelsExclusive | pkg/hosts/manager.go:321-327 | no line is both sentinels |
| HostsDocument.LoadEntries | pkg/hosts/manager.go:66-82 | load yields one entry per line |
| HostsDocument.InSectionAfterMeans | pkg/hosts/manager.go:63-79 | the in-section flag after a line is set exactly when an open sentinel came at or before it with no close sentinel since |
| HostsDocument.LoadEntriesAt | pkg/hosts/manager.go:66-82 | entry i is line i parsed, and marked exactly when it lies inside the section, open sentinel included and close sentinel excluded |
| HostsDocument.LoadEntriesWellFormed | pkg/hosts/manager.go:66-82 | every loaded entry is well formed |
| HostsDocument.IPPositionFrom | pkg/hosts/manager.go:90-101 | the first owned data entry for the IP at or after a position, or -1 when none |
| HostsDocument.IPPosition | pkg/hosts/manager.go:90-101 | the first owned data entry for the IP, or -1 when there is none |
| HostsDocument.ClosePositionFrom | pkg/hosts/manager.go:163-173 | the first entry at or after a position whose raw line is exactly the close line, or -1 |
| HostsDocument.ClosePosition | pkg/hosts/manager.go:163-173 | the first entry whose raw line is exactly the close line, or -1 |
| HostsDocument.AppendMissing | pkg/hosts/manager.go:127-134 | the merged hosts are those of the entry and those listed |
| HostsDocument.AppendMissingMeans | pkg/hosts/manager.go:127-134 | the merge keeps the existing hosts in place and appends the listed hosts not present, once each, in list order |
| HostsDocument.PlaceMerges | pkg/hosts/manager.go:125-135 | with an owned entry for the IP, only that entry changes: it gets the missing hosts appended and stays owned |
| HostsDocument.PlaceNewSection | pkg/hosts/manager.go:111-121 | with no owned entry and no section, the open sentinel, a new owned entry and the close sentinel are appended after the old entries |
| HostsDocument.PlaceIntoSection | pkg/hosts/manager.go:110-124 | with no owned entry but a section, the new entry goes just before the first exact close line, other entries in order; with no such line the step fails |
| HostsDocument.CleanEntry | pkg/hosts/manager.go:259-263 | a cleaned entry holds the same hosts, strictly sorted, with its line printed again and nothing else changed |
| HostsDocument.CleanAll | pkg/hosts/manager.go:258-263 | every entry is cleaned, in place |
| HostsDocument.ChunksCover | pkg/hosts/manager.go:276-285 | the chunks of an entry hold exactly its hosts, in order, between 1 and count per chunk, all with the same IP, comment and marks |
| HostsDocument.ChunksHosts | pkg/hosts/manager.go:276-285 | the chunks' hosts, concatenated, are the entry's hosts |
| HostsDocument.ChunksShape | pkg/hosts/manager.go:276-285 | every chunk holds 1 to count hosts and the entry's IP, comment and marks |
| HostsDocument.HostsPerLineIdentity | pkg/hosts/manager.go:267-270 | with a count of 0 or less, clean does no splitting |
| HostsDocument.RemoveHostsFromOtherIPs | pkg/hosts/manager.go:247-256 | afterwards no entry for another IP holds a listed host; entries for the IP are unchanged; every entry keeps everything but the dropped hosts |
| HostsDocument.RemoveSection | pkg/hosts/manager.go:219-230 | the entries kept are exactly those that are not sentinels |
| HostsDocument.ExportAll | pkg/hosts/manager.go:301-307 | flush writes one line per entry, in order, each the entry printed |
| HostsDocument.RemoveFromSlice | pkg/hosts/manager.go:251 | the remaining elements are those other than the item |
| HostsDocument.StripStep | pkg/hosts/manager.go:248-255 | one pass of the outer loop drops one more host from other IPs' entries |
| HostsDocument.CleanMatches | pkg/hosts/manager.go:259-263 | whatever order RemoveDuplicateHosts leaves, sorting afterwards gives the cleaned entry |
| HostsDocument.CleanEntryWellFormed | pkg/hosts/manager.go:259-263 | cleaning keeps an entry well formed |
| HostsDocument.ChunksWellFormed | pkg/hosts/manager.go:276-285 | the chunks of a well-formed entry are well formed |
| HostsDocument.SplitAllWellFormed | pkg/hosts/manager.go:271-288 | hostsPerLine keeps every entry well formed |
| HostsDocument.CleanWellFormed | pkg/hosts/manager.go:258-265 | clean keeps every entry well formed |
| HostsDocument.NewOwnedEntryWellFormed | pkg/hosts/manager.go:113-118 | the entry Add builds for a parsed IP is a well-formed data entry |
| HostsDocument.PlaceWellFormed | pkg/hosts/manager.go:110-135 | merging or inserting keeps every entry well formed |
| HostsDocument.MergedWellFormed | pkg/hosts/manager.go:127-134 | the merged entry is well formed |
| HostsDocument.InsertedWellFormed | pkg/hosts/entries.go:160-167 | inserting a well-formed entry keeps the list well formed |
| HostsDocument.StripWellFormed | pkg/hosts/manager.go:247-256 | removeHostsFromOtherIPs keeps every entry well formed |
| HostsDocument.RemoveTargetsWellFormed | pkg/hosts/manager.go:183-207 | the Remove loop keeps every entry well formed |
| HostsDocument.RemoveSectionWellFormed | pkg/hosts/manager.go:219-230 | removing the sentinels keeps every entry well formed |
| HostsDocument.RemovePreparedWellFormed | pkg/hosts/manager.go:183-214 | Remove, up to flush, keeps every entry well formed |
| HostsDocument.SplitAllHosts | pkg/hosts/manager.go:271-288 | hostsPerLine neither loses nor adds a host and keeps their order |
| HostsDocument.SplitAllBounded | pkg/hosts/manager.go:271-288 | after hostsPerLine no owned line holds more than count hosts, and every line's IP was already present |
| HostsDocument.RemoveFromMeans | pkg/hosts/manager.go:183-206 | Remove passes through every malformed, unowned, comment or other-IP entry; an owned entry for the IP loses the listed hosts, is rebuilt from the rest, and is dropped when none remain |
| HostsDocument.CleanSentinelFree | pkg/hosts/manager.go:258-265 | cleaning creates no sentinel |
| HostsDocument.SplitAllSentinelFree | pkg/hosts/manager.go:271-288 | hostsPerLine creates no sentinel |
| HostsDocument.ChunksAreDataLines | pkg/hosts/manager.go:276-285 | the chunks of a data entry are data entries |
| HostsDocument.RemoveDropsSection | pkg/hosts/manager.go:209-213 | when no owned non-sentinel entry survives, Remove leaves no sentinel at all |
| HostsManager.LoadStep | pkg/hosts/manager.go:66-82 | one more line: its kind, its effect on the in-section flag, and its entry appended |
| HostsManager.ScanLines | pkg/hosts/manager.go:63-83 | the scanning loop yields the loaded entries, and both sentinel flags are set exactly when the file has both sentinels |
| HostsManager.AddMissingHosts | pkg/hosts/manager.go:127-133 | the merge loop computes the merged hosts |
| HostsManager.RemoveListedHosts | pkg/hosts/manager.go:183-207 | the Remove loop computes the entries Remove keeps and rebuilds |
| HostsManager.SplitLongEntries | pkg/hosts/manager.go:271-288 | the hostsPerLine loop computes the split entries |
| HostsManager.Chunks | pkg/hosts/manager.go:276-285 | the inner loop computes the chunks of one entry |
| HostsManager.CleanEntries | pkg/hosts/manager.go:259-263 | the first loop of clean cleans every entry in place |
| HostsManager.KeptHosts | pkg/hosts/manager.go:189-194 | the hosts kept are those not listed, in order |
| HostsManager.RebuildLine | pkg/hosts/manager.go:198-202 | the line rebuilt is the IP followed by a space and each kept host |
| HostsManager.NormaliseEntry | pkg/hosts/manager.go:260-261 | RemoveDuplicateHosts then SortHosts give the cleaned entry |
| HostsManager.Manager.constructor | pkg/hosts/manager.go:39-54 | a new manager holds exactly the file's loaded entries and the section flag load computes |
| HostsManager.Manager.Load | pkg/hosts/manager.go:56-88 | load appends the file's entries to those held, and sets the flag iff both sentinels were read |
| HostsManager.Manager.GetIPPosition | pkg/hosts/manager.go:90-101 | the search loop returns the first owned data entry for the IP, or -1 |
| HostsManager.Manager.GetCloseCloudUnoSectionPosition | pkg/hosts/manager.go:163-173 | the search loop returns the first exact close line, or -1 |
| HostsManager.Manager.AddEntryInNewCloudUnoSection | pkg/hosts/manager.go:145-156 | the open sentinel, the entry and the close sentinel are appended |
| HostsManager.Manager.AddEntryToCloudUnoSection | pkg/hosts/manager.go:158-161 | the entry goes just before the close line; with no close line the slice expression panics, which the model reports as an error result with the entries unchanged |
| HostsManager.Manager.Add | pkg/hosts/manager.go:104-143 | an unparsable IP is an error that changes nothing; otherwise the entries are merged or inserted, cleaned and stripped from other IPs, written, and read back |
| HostsManager.Manager.Remove | pkg/hosts/manager.go:176-217 | an unparsable IP is an error that changes nothing; otherwise the listed hosts leave the IP's owned lines, the section goes when nothing owned is left, and the result is cleaned, written and read back |
| HostsManager.Manager.RemoveCloudUnoSection | pkg/hosts/manager.go:219-230 | every entry but the sentinels is kept, in order |
| HostsManager.Manager.HasMarkedEntries | pkg/hosts/manager.go:232-245 | the search loop answers whether an owned non-sentinel entry remains |
| HostsManager.Manager.RemoveHostsFromOtherIPs | pkg/hosts/manager.go:247-256 | the nested loops strip the listed hosts from every other IP's entries |
| HostsManager.Manager.Clean | pkg/hosts/manager.go:258-265 | every entry is cleaned, then owned long lines are split, keeping every entry well formed |
| HostsManager.Manager.HostsPerLine | pkg/hosts/manager.go:267-289 | the entries become their split form, unchanged when the count is 0 or less |
| HostsManager.Manager.Flush | pkg/hosts/manager.go:292-315 | the file becomes the printed entries, and load then appends them again |
| HostsFindings.FlushedAsWritten | pkg/hosts/manager.go:292-315 | after flush the manager holds twice as many entries, the old ones first |
| HostsFindings.FlushedReplacing | pkg/hosts/manager.go:292-315 | the intended flush holds as many entries as it wrote |
| HostsFindings.FlushTwiceRepeatsFile | pkg/hosts/manager.go:301-314 | a second flush with nothing changed writes the file twice over |
| HostsFindings.FlushRepeatsSentinel | pkg/hosts/manager.go:301-314 | after flush an open sentinel is held twice |
| HostsFindings.AddNewSection | pkg/hosts/manager.go:104-143 | Add of a new IP without a section prepares the old entries, then an open sentinel and two more entries |
| HostsFindings.AddNewSectionHeldTwice | pkg/hosts/manager.go:104-143 | Add of a new IP on a file without a section leaves two open sentinels in memory |
| HostsFindings.ReprintStable | pkg/hosts/entries.go:65-76 | printing, parsing and printing again gives the same line |
| HostsFindings.ParsedPrintable | pkg/hosts/entries.go:32-76 | every parsed line reprints stably |
| HostsFindings.LoadedPrintable | pkg/hosts/manager.go:66-82 | every loaded entry reprints stably |
| HostsFindings.ReplacingFlushIsStable | pkg/hosts/manager.go:292-315 | with the intended flush, flushing again writes the same file |
| HostsFindings.RemoveFromUntouched | pkg/hosts/manager.go:186-206 | Remove leaves an owned non-sentinel entry in place of an entry exactly when that entry was owned and not rebuilt |
| HostsFindings.RemoveAsWrittenKeepsSection | pkg/hosts/manager.go:203-213 | as written, the section survives Remove exactly when some owned line was not touched |
| HostsFindings.RemoveFromKeepsOwned | pkg/hosts/manager.go:186-206 | with rebuilt lines kept owned, an entry leaves an owned line exactly when it was an owned line keeping a host |
| HostsFindings.CorrectedRemoveKeepsSection | pkg/hosts/manager.go:203-213 | with rebuilt lines kept owned, the section survives exactly when some owned line keeps a host |
| HostsFindings.RemoveOneOfTwoHosts | pkg/hosts/manager.go:197-213 | removing one of two hosts of the only owned line keeps the line but drops the section; the corrected step keeps it |
| HostsFindings.BareSentinelLine | pkg/hosts/manager.go:317-327 | `#` directly followed by the sentinel text is recognised as a sentinel |
| HostsFindings.CommentFilePanics | pkg/hosts/manager.go:158-173 | a file of comment lines holding both sentinels but no exact close line makes Add of a new IP panic |
| HostsFindings.LooseSentinelsPanic | pkg/hosts/manager.go:158-173 | the file of the two sentinels written without a space after `#` is seen as a section, and Add of a new IP on it panics |
| HostsFindings.SentinelClosePositionFrom | pkg/hosts/manager.go:163-173 | the first entry at or after a position that the close-sentinel test accepts, or -1 |
| HostsFindings.SentinelClosePosition | pkg/hosts/manager.go:163-173 | the first entry the close-sentinel test accepts, or -1 |
| HostsFindings.SentinelPlaceNeverPanics | pkg/hosts/manager.go:110-124 | with the close sentinel found by the same test as load, Add never fails on a loaded file |
| HostsFindings.PlaceBySentinelOk | pkg/hosts/manager.go:110-124 | the corrected step never fails when, with a section held, a close sentinel entry is present |
| HostsFindings.LoadedCloseEntry | pkg/hosts/manager.go:66-82 | a file in which both sentinels were seen loads a close sentinel entry |
| HostsAgent.RequestFor | pkg/hosts/grpc.go:73-76 | the client sends the IP and hosts strings unchanged |
| HostsAgent.Outcome | pkg/hosts/grpc.go:77-83 | a transport error is returned as is; otherwise success exactly when the agent applied the change, and the failure error when it did not |
| HostsAgent.ClientAdd | pkg/hosts/grpc.go:72-84 | Add succeeds exactly when the agent applied it; a transport error passes through; not applied gives ErrFailedToAddHosts |
| HostsAgent.ClientRemove | pkg/hosts/grpc.go:89-101 | the same for Remove, with ErrFailedToRemoveHosts |
| HostsAgent.ParamsFor | pkg/hosts/grpc.go:115-118 | the server hands the request's IP and hosts to the service unchanged |
| HostsAgent.Answer | pkg/hosts/grpc.go:119-122 | the service's error is returned with no response; on success the answer is applied |
| HostsAgent.ServerAdd | pkg/hosts/grpc.go:114-123 | the server fails exactly when the service fails, with its error, and otherwise answers applied = true |
| HostsAgent.ServerRemove | pkg/hosts/grpc.go:127-136 | the same for Remove |
| HostsAgent.AddEndToEnd | pkg/hosts/grpc.go:72-123 | client and server together: Add succeeds exactly when the service succeeds, and a service error reaches the client as the transport delivers it |
| HostsAgent.RemoveEndToEnd | pkg/hosts/grpc.go:89-136 | the same for Remove |
| HttpUtils.HTTPErrorWithFields | pkg/httputils/httputils.go:27-33 | JSON content type, the status given, and the caller's fields with `message` set to the message, overriding any caller field of that name |
| HttpUtils.HTTPError | pkg/httputils/httputils.go:21-23 | the body holds the message and no other field |
| HttpUtils.StatusAndMessage | pkg/httputils/httputils.go:38-55 | PermissionDenied 403, Unauthenticated 401, Unimplemented 501, InvalidArgument 400 with the error text, anything else 500 with the generic message |
| HttpUtils.HTTPErrorFromGRPC | pkg/httputils/httputils.go:37-60 | the response is the error response for the chosen status and message |
| HttpUtils.ErrorMappingIsClosed | pkg/httputils/httputils.go:37-60 | every error maps to a 4xx or 5xx response with one field; 400 exactly for InvalidArgument; otherwise one of four fixed messages, so no other error text leaks |
| HttpUtils.PlainErrorsAre500 | pkg/httputils/httputils.go:38-40 | an error without a gRPC status is always 500 with the generic message |
| NetUtils.SelectServerIP | pkg/netutils/ip.go:31-44 | a custom IP is returned when it parses and is an error with an empty IP when not; the default gives 127.0.0.1 on the host and 172.18.0.22 otherwise |
| NetUtils.SelectedIPParses | pkg/netutils/ip.go:32-38 | when the defaults parse, every IP returned without error parses |
| NetUtils.DefaultNeverFails | pkg/netutils/ip.go:40-43 | the default IP is never rejected |
| Utils.CommaSeparatedListContains | pkg/utils/utils.go:19-28 | the loop answers true exactly when some comma-separated element equals the search string |
| Utils.JoinedListHas | pkg/utils/utils.go:22-24 | a list joined from comma-free elements contains exactly those elements |
| Utils.SingleElementList | pkg/utils/utils.go:24 | elements are compared whole: a one-element list contains only that element |
| Utils.EmptyListHasEmpty | pkg/utils/utils.go:22 | the empty list contains the empty string and nothing else |
| Utils.CommaNeverFound | pkg/utils/utils.go:22-24 | a search string with a comma is never found |
| SecretStore.LastElement | pkg/gcloud/grpc/secretmanager.go:216-217 | the last element of a name holds no `/` and ends the name |
| SecretStore.CreatedFileIsSecretFile | pkg/gcloud/grpc/secretmanager.go:105-116 | the file CreateSecret writes is the file createSecretFilePath gives for the returned name |
| SecretStore.CreatedSecret | pkg/gcloud/grpc/secretmanager.go:97-100 | the stored secret's name is `parent/secrets/id` and its creation time now, whatever the request held; labels and other fields are copied |
| SecretStore.CreateOutcome | pkg/gcloud/grpc/secretmanager.go:96-118 | CreateSecret succeeds exactly when encoding and the write succeed, and then writes the encoded secret to the metadata file; on failure no file changes |
| SecretStore.ReadSecret | pkg/gcloud/grpc/secretmanager.go:223-236 | a missing file is a not-found error; otherwise the decoded secret, under the requested name |
| SecretStore.ValidateUpdateMask | pkg/gcloud/grpc/secretmanager.go:310-323 | a nil mask is a nil dereference, reported as an error result; otherwise the mask passes exactly when every path is `labels`, and fails with InvalidArgument |
| SecretStore.UpdateOutcome | pkg/gcloud/grpc/secretmanager.go:239-258 | a bad mask fails before any read or write; on success only the labels of the stored secret are replaced and the secret is written back |
| SecretStore.StoreSecret | pkg/gcloud/grpc/secretmanager.go:250-257 | encoding and writing a secret succeeds exactly when both do, and writes only that file |
| SecretStore.CreateThenGet | pkg/gcloud/grpc/secretmanager.go:96-118 | after a successful CreateSecret, GetSecret of the returned name returns the created secret |
| SecretStore.UpdateThenGet | pkg/gcloud/grpc/secretmanager.go:239-258 | after a successful UpdateSecret, GetSecret returns the updated secret |
| SecretStore.BaseName | pkg/gcloud/grpc/secretmanager.go:71-72 | a file name holds no `/` |
| SecretStore.LoadVersions | pkg/gcloud/grpc/secretmanager.go:134-156 | a missing manifest reads as next 1 with no versions; otherwise the decoded manifest |
| SecretStore.LoadVersionsReadsBack | pkg/gcloud/grpc/secretmanager.go:134-156 | a manifest written with a round-tripping codec is loaded back unchanged |
| SecretStore.WrittenManifest | pkg/gcloud/grpc/secretmanager.go:159-186 | the manifest written keeps the counter it was read with; it holds the new version only when the copy shares its map |
| SecretStore.StoreVersion | pkg/gcloud/grpc/secretmanager.go:174-192 | the payload is written first; its write error fails the call; an encoding error fails after the payload is written; a manifest write error is ignored |
| SecretStore.AddVersionOutcome | pkg/gcloud/grpc/secretmanager.go:158-193 | a UUID error fails the call; the new version is named by the UUID and numbered with the counter read |
| SecretStore.AddSecretVersionOutcome | pkg/gcloud/grpc/secretmanager.go:196-213 | a manifest read error or a missing payload fails with no change; the version is named `parent/versions/<counter read>` |
| SecretStore.NotImplemented | pkg/gcloud/grpc/secretmanager.go:261-308 | every unimplemented RPC answers Unimplemented, naming the method |
| SecretStore.FileSystem.constructor | pkg/gcloud/grpc/secretmanager.go:37-40 | the file system starts with the given files |
| SecretStore.FileSystem.WriteFile | pkg/gcloud/grpc/secretmanager.go:176 | a write sets the file's contents, or fails and changes nothing |
| SecretStore.FileSystem.ReadFile | pkg/gcloud/grpc/secretmanager.go:225 | a read returns the file's contents, or a not-found error |
| SecretStore.WalkRead | pkg/gcloud/grpc/secretmanager.go:70-88 | the walk fails exactly when reading some selected file fails, with that error; otherwise it returns one secret per selected file |
| SecretStore.SecretManager.constructor | pkg/gcloud/grpc/secretmanager.go:60-63 | the engine holds the data root and the file system |
| SecretStore.SecretManager.CreateSecret | pkg/gcloud/grpc/secretmanager.go:96-118 | the result and the files are those of CreateOutcome |
| SecretStore.SecretManager.GetSecret | pkg/gcloud/grpc/secretmanager.go:223-236 | the result is ReadSecret of the requested name |
| SecretStore.SecretManager.ListSecrets | pkg/gcloud/grpc/secretmanager.go:67-93 | the listing fails exactly when reading some selected `.json` file fails; otherwise it holds one secret per selected file, each named from its file name |
| SecretStore.SecretManager.ListSecretsCorrected | pkg/gcloud/grpc/secretmanager.go:67-93 | the intended listing reads only secrets' own metadata files: it fails exactly when one of them does not decode, and otherwise holds one secret per such file |
| SecretStore.SecretManager.UpdateSecret | pkg/gcloud/grpc/secretmanager.go:239-258 | the result and the files are those of UpdateOutcome |
| SecretStore.SecretManager.GetVersions | pkg/gcloud/grpc/secretmanager.go:134-156 | the result is LoadVersions |
| SecretStore.SecretManager.AddVersion | pkg/gcloud/grpc/secretmanager.go:158-193 | the result and the files are those of AddVersionOutcome |
| SecretStore.SecretManager.AddSecretVersion | pkg/gcloud/grpc/secretmanager.go:196-213 | the result and the files are those of AddSecretVersionOutcome |
| SecretFindings.CounterNotPersisted | pkg/gcloud/grpc/secretmanager.go:184-191 | after a successful AddSecretVersion the persisted counter is the one read before |
| SecretFindings.SecondVersionRepeatsName | pkg/gcloud/grpc/secretmanager.go:184-208 | two successive versions of a secret get the same name, `parent/versions/1` for a new secret |
| SecretFindings.AdvancedManifest | pkg/gcloud/grpc/secretmanager.go:173-184 | the intended manifest holds the new version and a counter one higher |
| SecretFindings.AddVersionCorrected | pkg/gcloud/grpc/secretmanager.go:158-193 | the corrected addVersion writes the advanced manifest |
| SecretFindings.AddSecretVersionCorrected | pkg/gcloud/grpc/secretmanager.go:196-213 | the corrected AddSecretVersion names the version from the counter read and persists the advanced manifest |
| SecretFindings.CorrectedCounterAdvances | pkg/gcloud/grpc/secretmanager.go:180-191 | with the correction, each successful call advances the persisted counter by one and records the version |
| SecretFindings.CorrectedVersionsDiffer | pkg/gcloud/grpc/secretmanager.go:196-213 | with the correction, two successive versions get consecutive, distinct names, `versions/1` then `versions/2` for a new secret |
| SecretFindings.ManifestIsListed | pkg/gcloud/grpc/secretmanager.go:69-74 | the walk selects every secret's manifest and reads it as the secret `versions` |
| SecretFindings.ListingFailsOnManifest | pkg/gcloud/grpc/secretmanager.go:70-88 | once a secret has a manifest, and no secret is called `versions`, some selected file fails to read |
| SecretFindings.ListingFailsAfterAddVersion | pkg/gcloud/grpc/secretmanager.go:67-93 | after a version is added to a secret, listing its project reads a file that fails |
| SecretFindings.CorrectedListingReadsMetadata | pkg/gcloud/grpc/secretmanager.go:70-88 | the corrected walk reads each selected file as the secret it holds |
| SecretFindings.CreatedSecretIsListed | pkg/gcloud/grpc/secretmanager.go:70-88 | a secret CreateSecret stored is selected by the corrected walk, under its name |
| SecretFindings.ManifestNotListed | pkg/gcloud/grpc/secretmanager.go:70-88 | the corrected walk never selects the manifest of a secret other than `versions` |
| SecretFindings.ManifestIsNotMetadataOfVersions | pkg/gcloud/grpc/secretmanager.go:105-135 | the manifest of a secret other than `versions` is never the metadata file of a secret called `versions` |
| SecretManagerApi.NamesAgree | internal/gcloud/httpapi/secretmanager.go:268-274 | the controller's secret names are the engine's, and name the file CreateSecret writes |
| SecretManagerApi.Respond | internal/gcloud/httpapi/secretmanager.go:90-106 | a service error goes through the gRPC mapping; an encoding failure is 400 with the fixed message; the success status exactly when both succeed, with the encoded body |
| SecretManagerApi.AddVersion | internal/gcloud/httpapi/secretmanager.go:65-107 | a body read error is 400; a decode error goes through the gRPC mapping; the service is called exactly when the body decodes, with the parent from the path (`:addVersion` stripped) overriding the body; success is 201 |
| SecretManagerApi.Create | internal/gcloud/httpapi/secretmanager.go:109-156 | body errors are 400 without a call; parent and id come from the path and query and the body fills only the secret; success is 201 |
| SecretManagerApi.ListSecrets | internal/gcloud/httpapi/secretmanager.go:158-185 | the service is called with `projects/<project>`; success is 200 |
| SecretManagerApi.GetSecret | internal/gcloud/httpapi/secretmanager.go:187-215 | the service is called with the path's full secret name; success is 200 |
| SecretManagerApi.UpdateSecret | internal/gcloud/httpapi/secretmanager.go:217-266 | body errors are 400 without a call; the mask is the query split on commas; the path's name overrides the body's; success is 200 |
| SecretManagerApi.SuccessMeansServedAndEncoded | internal/gcloud/httpapi/secretmanager.go:90-106 | every handler answers its success status exactly when it called the service and both the service and the encoding succeeded |
| SecretManagerApi.UnimplementedIs501 | pkg/httputils/httputils.go:48-50 | every unimplemented RPC reaches the client as 501 "Not implemented" |
| SecretManagerApi.MalformedAddVersionIs500 | internal/gcloud/httpapi/secretmanager.go:77-83 | a body that does not decode as an AddSecretVersionRequest is answered 500 with the generic message, without a call |
| SecretManagerApi.AddVersionCorrected | internal/gcloud/httpapi/secretmanager.go:77-83 | the corrected handler answers such a body with 400 and the invalid-request message, and otherwise as written |
| SecretManagerApi.UnservedRequestsAre400 | internal/gcloud/httpapi/secretmanager.go:126-133 | with the correction, every handler that reads a body answers 400 whenever it does not call the service |

## Left out

- File and OS input/output around the hosts file: opening and creating it, bufio's line-length limit, the byte-order mark, the platform's line ending (`eol`) and OS errors. The file is a sequence of lines, one per entry written.
- `NewManager`'s path expansion and its configuration lookup. The constructor takes the lines and the platform's `HostsPerLine` value.
- Logging, `fmt.Println` in `AddSecretVersion`, and the message text of the `bad hosts entry` error. An entry's error is a flag.
- `buildRawLine`, `itemInSlice` and `removeFromSlice` are not part of this model. They are modelled by their evident meaning: the IP and the hosts joined by spaces, membership, and removing every occurrence.
- `httputils.InvalidRequestMessage` and `httputils.SetResponseAsJSON` are not part of this model. They are parameters of the controller (`Helpers`).
- `json.Marshal` of an error body in `HTTPErrorWithFields`: the body is kept as its field map. The function's writing into the caller's map is not modelled, because every caller in the core passes a fresh map.
- `RegisterSecretManager`: the routing of method, host, path and query to a handler. The handlers take the route variables as a map.
- `NewSecretManager`: it creates the data root and registers the host name with the hosts service.
- `MkdirAll` and directories: the file system is a map from path to bytes, and a write fails only on the paths the file system refuses.
- `afero.Exists` errors, and read errors other than a missing file.
- `filepath.Walk` details:
  - its order;
  - errors on directories;
  - the cleaning of paths.
- SecretStore.SecretManager.ListSecrets: the order of the listed secrets is not stated, only which secrets are listed and how many, because the walk order is lexical and not modelled.
- HostsManager.Manager.AddEntryToCloudUnoSection: a Go runtime panic (the slice expression with -1) is modelled as an error result that stops the operation with the entries unchanged. In the program it ends the process: the hosts agent's gRPC server has no recovery interceptor, and with RunOnHost the manager runs inside the server itself.
- HostsManager.Manager.Add: the panic of `AddEntryToCloudUnoSection` is returned as an error result; in the program it ends the process, as above.
- SecretStore.ValidateUpdateMask: a nil mask is modelled as the error result `NilDereference`; in the program the nil dereference panics and net/http aborts the connection with no response.
- SecretStore.AddSecretVersionOutcome: a nil payload is modelled as the error result `NilDereference`; in the program it panics and net/http aborts the connection, so a REST client receives no response. The controller model answers 500 in that case.
- HostsAgent.Answer: a panic value handed to it is modelled as an error the client receives as a status; in the program the panic ends the agent and the client sees a transport failure.
- HostsManager.Manager.HostsPerLine: the chunks of a split entry are modelled as independent sequences. In Go they are slices of one backing array (manager.go:282), so a later append to one chunk can overwrite the first host of the next.
- HostsManager.Manager.Add: the merge appends to the held entry's hosts (manager.go:127-131), and the model treats those hosts as a value. With a positive `HostsPerLine`, `load` appending rather than replacing keeps the old first chunk, and its shared array has spare capacity. The Go append then writes into the next chunk's hosts. For example, `Add(ip, "h01,…,h12")` then `Add(ip, "h13")` with `HostsPerLine` 9 writes `ip h11 h12 h13` in Go where the model writes `ip h10 h11 h12`. This aliasing is not modelled.
- HostsManager.Manager.Flush: each entry is written as one line of the file. A host holding a line break (hosts are not validated at manager.go:108) becomes two physical lines in the written file, and the reload with bufio.ScanLines then reads two entries; the model reads one.
- HostsDocument.ExportAll: one line per entry, so a printed line holding a line break is not split into the lines the file would hold.
- HostsEntries.InsertIntoSlice: requires an index within the slice; with -1 the Go code panics, and the model states that panic in `Manager.AddEntryToCloudUnoSection` before the call.
- SecretStore.CreateOutcome: when the final write fails, CreateSecret returns both the secret and the error; the model returns only the error.
- SecretStore.UpdateOutcome: a request with no secret is modelled as the error result `NilDereference` with the files unchanged. In the program, reading `req.Secret.Name` (secretmanager.go:245) panics, and the gRPC server, which has no recovery interceptor, ends the process. The REST controller always passes a secret.
- SecretStore.SecretManager.UpdateSecret: the same. A nil secret is the error result `NilDereference` in the model, and a panic that ends the process in the program.
- SecretStore.UpdateOutcome: when the final write fails, UpdateSecret returns both the stored secret and the error (secretmanager.go:256-257); the model returns only the error. Every caller checks the error first.
- `copier.Copy` is modelled only as `CreatedSecret`'s copy of the request's fields and as the `copierSharesMap` flag.
- Concurrency:
  - the connection multiplexer;
  - the hosts agent's transport and `NewGRPCClient`;
  - races between callers on one manifest.
- `CreateLoopBackAlias` and `IsRunningInDockerContainer`: they call out to the operating system.
- GoStrings.Less compares strings by code point. For well-formed UTF-8 that is Go's byte order.
- GoStrings.SortStrings is specified by its result (sorted, a permutation); `sort.Strings`' algorithm is not modelled.

## Findings

| source | as written | input that shows it | evidently intended | confidence | as-written member | corrected member |
|---|---|---|---|---|---|---|
| pkg/hosts/manager.go:314 | `flush` calls `load`, which appends the file's entries to those already held. After every Add or Remove the manager holds each entry twice, and the next flush writes the file twice over | Add of a new IP on an empty file: the file gets 3 lines and the manager holds 6, two of them open sentinels | load replaces the entries it holds | high; not executed | HostsFindings.AddNewSectionHeldTwice | HostsFindings.ReplacingFlushIsStable |
| pkg/hosts/manager.go:203 | Remove rebuilds a kept line with `NewEntry`, which carries no mark. When the only owned line loses one of its hosts, no owned entry is left, and the sentinels are removed while the line stays | a section holding `ip a b`, then Remove(ip, "a") | the rebuilt line stays owned and the section stays | high; not executed | HostsFindings.RemoveOneOfTwoHosts | HostsFindings.CorrectedRemoveKeepsSection |
| pkg/hosts/manager.go:167 | load detects the section by normalised comment text, but Add finds the close line by its exact text. When the two disagree, `InsertIntoSlice` is called with -1 and panics | the file `#Added by Cloud::1`, `#End of Cloud::1 section`, then Add of a new IP | find the close line with the same test load uses | medium; not executed | HostsFindings.LooseSentinelsPanic | HostsFindings.SentinelPlaceNeverPanics |
| pkg/gcloud/grpc/secretmanager.go:186 | addVersion increments the counter of the copy but writes the original manifest, so the persisted counter never advances | two AddSecretVersion calls on a new secret: both versions are named `.../versions/1` | write the copy with the advanced counter | high; not executed | SecretFindings.SecondVersionRepeatsName | SecretFindings.CorrectedVersionsDiffer |
| pkg/gcloud/grpc/secretmanager.go:71 | ListSecrets selects every `.json` file under the secrets directory, including each secret's `versions.json`, and reads it as a secret called `versions`, whose file does not exist | CreateSecret `s`, AddSecretVersion on it, then ListSecrets of its project: not-found error | select only each secret's own metadata file | high; not executed | SecretFindings.ListingFailsAfterAddVersion | SecretFindings.CreatedSecretIsListed |
| internal/gcloud/httpapi/secretmanager.go:81 | a body that does not decode is passed to `HTTPErrorFromGRPC`; a decoding error carries no gRPC status, so it becomes 500 where Create and UpdateSecret answer 400 | POST `.../secrets/s:addVersion` with the body `{` | 400 with the invalid-request message | medium; not executed | SecretManagerApi.MalformedAddVersionIs500 | SecretManagerApi.AddVersionCorrected |

For the listing, `SecretFindings.ManifestNotListed` and
`SecretStore.SecretManager.ListSecretsCorrected` state the rest of the intended
behaviour. For the flush, `HostsFindings.FlushedReplacing` is the corrected
step. The `Manager` class keeps the code as written; the corrected
definitions sit beside it in `HostsFindings` and `SecretFindings`.
