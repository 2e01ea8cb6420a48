# KeeReloadLastUsedFiles, modelled in Dafny

KeeReloadLastUsedFiles is a KeePass plugin. When KeePass exits, it remembers which database files were open. When KeePass starts, it opens them again. The plugin has two event handlers:

- **Close handler** (`MainWindow_FileClosingPre`). It runs on every file-closing event. The first event whose flags carry the `Exiting` bit sets the `exiting` guard. That event then collects at most one connection descriptor per open document (a document with no usable connection is skipped) and stores the encoded list under the configuration key `ReloadLUF.LastUsedFiles`. Errors are shown in a dialog.
- **Startup handler** (`MainWindow_FormLoadPost`). It reads that key and decodes the list. For each remembered entry, in order, it scans the open documents. It opens the entry when no document's path matches it. Both sides are lower-cased and trimmed before the comparison.

Modules of the model:

- `PathText` (PathText.dfy) is the comparison key: `ToLower` followed by `Trim`.
- `Connections` (Connections.dfy) is the host data the handlers read. A document has an optional locked connection and an optional database. A database has an optional connection. A null reference is `None`. The module also defines a document's effective path.
- `SaveList` (SaveList.dfy) is the collection loop of the close handler.
- `ReopenList` (ReopenList.dfy) holds the "is loaded" scan, the reopen loop and the startup decision as a whole.
- `ExitGuard` (ExitGuard.dfy) is the close handler as a two-state machine. It includes lemmas over any sequence of close events.
- `Plugin` (Plugin.dfy) has two classes. `Host` holds the documents, the configuration store (a map from key to string), and logs of store writes, open calls and error dialogs. `ReloadLastUsedFiles` has the `exiting` field and the two handlers as methods. Each handler is proved against the functions above.

Behaviour taken from the code:

- A `NullReferenceException` is modelled as a fault, and the handler's `catch` turns it into an error dialog.
- Save side: a document without a usable locked connection whose `Database` is null aborts the whole save (line 105 checks `Database.IOConnectionInfo` for null but not `Database`). Nothing is written.
- Startup side: a document without a usable locked connection whose database has a null `IOConnectionInfo` aborts the scan (line 68 checks `Database` but not the connection). The reopen loop stops there and one error dialog is shown. Because such a document aborts every scan that does not meet a matching document first, no entry is ever found missing while it is open: nothing is handed to `OpenDatabase` at all.
- `OpenDatabase` is called inside the handler's `try`, so a failure there would be caught and shown as the load-error dialog. The model has no failing `OpenDatabase` (see Left out).
- A path whose length is non-zero but which is only white space still counts as usable. This is because the length test is made before trimming.

## Model

| member | source | states |
|---|---|---|
| PathText.ToLower | Source/KeeReloadLastUsedFilesExt.cs:60 | the lower-cased path has the same length as the path; which characters change is stated by `ToLowerFoldsAsciiCapitals` |
| PathText.ToLowerFoldsAsciiCapitals | Source/KeeReloadLastUsedFilesExt.cs:60 | lower-casing changes a character exactly when it is an ASCII capital, turns each capital into its small letter (code point plus 32), and leaves no ASCII capital |
| PathText.Trim | Source/KeeReloadLastUsedFilesExt.cs:60 | the result is no longer than the input and neither starts nor ends with a white-space character |
| PathText.TrimIsSlice | Source/KeeReloadLastUsedFilesExt.cs:60 | the trimmed string is a contiguous slice of the input with only white space before and after it |
| PathText.TrimKeepsTrimmed | Source/KeeReloadLastUsedFilesExt.cs:60 | a string with no white space at either end is returned unchanged |
| PathText.Normalize | Source/KeeReloadLastUsedFilesExt.cs:60 | the comparison key (`ToLower().Trim()`) is no longer than the path and has no white space at either end |
| PathText.NormalizeIsSlice | Source/KeeReloadLastUsedFilesExt.cs:60 | the key is a contiguous slice of the lower-cased path with only white space before and after it |
| PathText.NormalizeKeepsKey | Source/KeeReloadLastUsedFilesExt.cs:60 | a lower-case path with no white space at either end is its own key |
| PathText.TrimIdempotent | Source/KeeReloadLastUsedFilesExt.cs:60 | trimming an already trimmed string changes nothing |
| PathText.TrimIgnoresWhitePrefix | Source/KeeReloadLastUsedFilesExt.cs:60 | leading white space does not change the trimmed string |
| PathText.TrimIgnoresWhiteSuffix | Source/KeeReloadLastUsedFilesExt.cs:60 | trailing white space does not change the trimmed string |
| PathText.NormalizeIdempotent | Source/KeeReloadLastUsedFilesExt.cs:60 | normalising a key again gives the same key |
| PathText.NormalizeCaseInsensitive | Source/KeeReloadLastUsedFilesExt.cs:60 | two paths that differ only in the ASCII case of their letters have the same comparison key |
| PathText.NormalizeIgnoresCase | Source/KeeReloadLastUsedFilesExt.cs:60 | lower-casing the path first does not change its key |
| PathText.NormalizeIgnoresSurroundingWhiteSpace | Source/KeeReloadLastUsedFilesExt.cs:60 | white space around a path does not change its key |
| Connections.EffectivePath | Source/KeeReloadLastUsedFilesExt.cs:64-71 | a document stands for a path exactly when it has a usable locked or database connection; that path is non-empty; a usable locked connection's path wins, and otherwise the usable database connection's path is taken |
| SaveList.SaveFaults | Source/KeeReloadLastUsedFilesExt.cs:105 | a document that aborts the save (no usable locked connection, null database) stands for no path |
| SaveList.Pick | Source/KeeReloadLastUsedFilesExt.cs:103-106 | a document contributes at most one descriptor, one exactly when it stands for a path, and that descriptor's path is its effective path |
| SaveList.Collected | Source/KeeReloadLastUsedFilesExt.cs:100-107 | at most one descriptor per document: the list is no longer than the document list |
| SaveList.Collect | Source/KeeReloadLastUsedFilesExt.cs:100-107 | the collection fails exactly when some document aborts it; otherwise the list has at most one entry per document and every path in it is non-empty |
| SaveList.CollectConnections | Source/KeeReloadLastUsedFilesExt.cs:100-107 | the loop aborts exactly when some document has no usable locked connection and a null database; otherwise it returns `Collected(docs)` |
| SaveList.CollectedAppend | Source/KeeReloadLastUsedFilesExt.cs:100-107 | the collection over two runs of documents is the two collections concatenated, so document order is kept |
| SaveList.CollectedSplit | Source/KeeReloadLastUsedFilesExt.cs:101-106 | document i contributes exactly its own pick, after the picks of the documents before it |
| SaveList.CollectedPaths | Source/KeeReloadLastUsedFilesExt.cs:103-106 | every collected descriptor has a non-empty path, and that path is the effective path of some open document |
| SaveList.CollectedPrefersLocked | Source/KeeReloadLastUsedFilesExt.cs:103-106 | at document i's place the list holds its locked connection when usable, else its usable database connection, else nothing |
| ReopenList.ScanFaults | Source/KeeReloadLastUsedFilesExt.cs:68 | a document that aborts the scan (no usable locked connection, database with a null connection) stands for no path and does not abort the save |
| ReopenList.Scan | Source/KeeReloadLastUsedFilesExt.cs:62-74 | the scan reports the entry loaded only if some document matches it, and aborted only if some document aborts it |
| ReopenList.IsLoaded | Source/KeeReloadLastUsedFilesExt.cs:59-74 | the inner loop, including its `break`, computes `Scan` |
| ReopenList.ScanNotLoadedIff | Source/KeeReloadLastUsedFilesExt.cs:62-74 | the scan finds nothing exactly when no document aborts it and no document's effective key equals the entry's key |
| ReopenList.ScanLoadedIff | Source/KeeReloadLastUsedFilesExt.cs:62-74 | the scan finds the entry loaded exactly when some document matches and no earlier document aborts |
| ReopenList.ScanFailedIff | Source/KeeReloadLastUsedFilesExt.cs:68 | the scan aborts exactly when some document with no usable locked connection has a database with a null connection (`ScanFaults`), and no earlier document matches |
| ReopenList.ScanWhenSafe | Source/KeeReloadLastUsedFilesExt.cs:62-74 | when no document can abort, the entry is found loaded iff some open document's effective path has the same key |
| ReopenList.Reopen | Source/KeeReloadLastUsedFilesExt.cs:57-77 | no more files are opened than entries are remembered, and each one opened is a remembered entry |
| ReopenList.NoOpenWhenUnsafe | Source/KeeReloadLastUsedFilesExt.cs:62-76 | when some open document can abort a scan, nothing is handed to `OpenDatabase`, whatever list is remembered |
| ReopenList.ReopenOnlyMissing | Source/KeeReloadLastUsedFilesExt.cs:57-77 | every file handed to `OpenDatabase` is a remembered entry that no open document stands for |
| ReopenList.ReopenWhenSafe | Source/KeeReloadLastUsedFilesExt.cs:57-77 | when no document can abort, exactly the missing entries are opened, in remembered order, and the handler does not fail |
| ReopenList.MissingCount | Source/KeeReloadLastUsedFilesExt.cs:57-76 | `Missing` holds an entry that no open document stands for as many times as it is remembered (no deduplication), and an entry that is already open zero times; by `ReopenWhenSafe`, entries are opened that often when no document can abort a scan |
| ReopenList.MissingAppend | Source/KeeReloadLastUsedFilesExt.cs:57-76 | the missing entries keep the remembered order |
| ReopenList.ReopenNext | Source/KeeReloadLastUsedFilesExt.cs:59-76 | one turn of the reopen loop: an entry found loaded is skipped, one not found is appended to the open calls, and an aborted scan fails the loop |
| ReopenList.ReopenFailedStays | Source/KeeReloadLastUsedFilesExt.cs:57-83 | once a scan has aborted the loop, later entries change nothing |
| ReopenList.ReopenStopsAtFailure | Source/KeeReloadLastUsedFilesExt.cs:57-83 | an aborting scan at entry k fails the handler and opens nothing for entries from k on (with the document list fixed, `NoOpenWhenUnsafe` shows nothing was opened before k either) |
| ReopenList.ReopenFailsAt | Source/KeeReloadLastUsedFilesExt.cs:68 | if the scan of any remembered entry aborts, the handler fails |
| ReopenList.ReopenFailsOnlyOnAbort | Source/KeeReloadLastUsedFilesExt.cs:80-83 | the handler fails only if the scan of some remembered entry aborts |
| ReopenList.CollectedListReopensNothing | Source/KeeReloadLastUsedFilesExt.cs:57-77 | when no document can abort a scan, reopening the list the close handler collects, against the same documents, opens nothing and does not fail |
| ReopenList.Startup | Source/KeeReloadLastUsedFilesExt.cs:50-83 | a missing or empty value opens nothing and shows no error; an undecodable value opens nothing and reports an error; nothing opened is already open; for a decoded list, when no document can abort a scan exactly the missing entries are opened, in remembered order, without error, and otherwise nothing is opened |
| ExitGuard.OnClose | Source/KeeReloadLastUsedFilesExt.cs:90-117 | without the `Exiting` bit nothing happens and the guard is unchanged; with the guard set nothing happens; the guard becomes set even when the save then fails; a write happens exactly when collection and encoding both succeed |
| ExitGuard.Run | Source/KeeReloadLastUsedFilesExt.cs:86-92 | threading the guard through `OnClose` event by event gives one effect per event, a guard that stays set once set, and effects only on events carrying the `Exiting` bit |
| ExitGuard.RunCloses | Source/KeeReloadLastUsedFilesExt.cs:86-117 | one effect per close event, and only an event carrying the `Exiting` bit has one |
| ExitGuard.ExitingAfterIff | Source/KeeReloadLastUsedFilesExt.cs:23 | after any run of close events, threaded through `OnClose` as in `Run`, the guard is set exactly when it was set before or some event carried the `Exiting` bit; it is never reset |
| ExitGuard.NoEffectOnceExiting | Source/KeeReloadLastUsedFilesExt.cs:90 | once the guard is set, every later close event is a no-op |
| ExitGuard.SaveAttemptedAtFirstExiting | Source/KeeReloadLastUsedFilesExt.cs:90-92 | from a clear guard, an event attempts the save exactly when it is the first one carrying the `Exiting` bit |
| ExitGuard.AtMostOneSaveAttempt | Source/KeeReloadLastUsedFilesExt.cs:90-117 | across any run of close events at most one event has an effect, so the store is written at most once and a failed save is never retried |
| Plugin.Host.GetString | Source/KeeReloadLastUsedFilesExt.cs:50 | the value stored under the key, or `None` when there is none |
| Plugin.Host.SetString | Source/KeeReloadLastUsedFilesExt.cs:112 | replaces the value under the key and logs one write |
| Plugin.Host.OpenDatabase | Source/KeeReloadLastUsedFilesExt.cs:76 | logs one open call with the given descriptor |
| Plugin.Host.ShowError | Source/KeeReloadLastUsedFilesExt.cs:82 | logs one error dialog |
| Plugin.ReloadLastUsedFiles.Initialize | Source/KeeReloadLastUsedFilesExt.cs:38-44 | the plugin keeps its host and starts with the `exiting` guard clear |
| Plugin.ReloadLastUsedFiles.FormLoadPost | Source/KeeReloadLastUsedFilesExt.cs:46-84 | the open calls appended to the host's log are exactly `Startup(...)`'s list, and one load-error dialog is added exactly when startup fails; the store and documents are unchanged |
| Plugin.ReloadLastUsedFiles.ReopenSaved | Source/KeeReloadLastUsedFilesExt.cs:57-77 | the loop over the decoded entries hands exactly `Reopen(saved, documents)`'s list to `OpenDatabase`, in order, and adds one load-error dialog exactly when a scan aborts |
| Plugin.ReloadLastUsedFiles.FileClosingPre | Source/KeeReloadLastUsedFilesExt.cs:86-120 | the new guard is `OnClose`'s; the store gets one write under `ReloadLUF.LastUsedFiles` exactly when `OnClose` saves; one save-error dialog is added exactly when the save fails |

Two predicates model a source expression and are covered by the rows of the members that use them. `ReopenList.Matches` is the comparison at lines 66 and 70; the `Scan`, `ScanNotLoadedIff`, `ScanLoadedIff`, `ScanFailedIff` and `ScanWhenSafe` rows state what it decides. `ExitGuard.HasExitingFlag` is the flag test at line 90; the `OnClose` row states its effect.

## Left out

- XML serialisation is not modelled (`XmlSerializerEx`, `XmlWriter`, `StringBuilder`, and the stream built with `Encoding.Unicode`). Encoding and decoding are function parameters of the handlers, and either may fail. No round trip between them is claimed.
- `ToLower()` is culture-sensitive. The model lower-cases ASCII letters only. `Trim()` is modelled with the white-space set of `Char.IsWhiteSpace` in .NET runtimes whose character data is Unicode 6.3 or later, .NET Core among them. Two other sets are not modelled. .NET Framework 3.5 and earlier also trim U+200B and U+FEFF but not U+202F or U+205F. Runtimes with older character data, the earlier .NET Framework 4.x releases among them, also trim U+180E MONGOLIAN VOWEL SEPARATOR, which the model does not count as white space.
- The `Exiting` flag value is not in the repository. The model takes KeePass's `FileEventFlags.Exiting` to be bit value 1.
- The `lock(lockObject)` is left out. The handlers are sequential calls on one object.
- Event subscription in `Initialize`, `UpdateUrl` and `Terminate` are host plumbing and are left out. `Initialize` appears only as the constructor that stores the host.
- `MessageBox.Show` is reduced to an entry in the host's dialog log. The exception text is not modelled.
- `OpenDatabase` is reduced to an entry in a log. The host's behaviour when opening a file is not modelled, including a failed open or an exception. The open documents are taken as unchanged during the startup loop. The model therefore does not capture a newly opened file matching a later entry.
- A null `Path` on a connection is not modelled. Connection paths are strings. Connection fields other than the path and user name are not modelled.
- Exceptions that the model does not name are left out, for example the serializer failing to be constructed or the store failing to write.
