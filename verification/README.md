# BecaBot UTPL: a verified model of the chatbot's core logic

BecaBot UTPL is a Django application that answers questions about the
scholarships ("becas") of the Universidad Técnica Particular de Loja. It
scrapes the scholarship pages into a JSON corpus and indexes that corpus,
together with uploaded PDF guides, in a vector store. It answers chat
messages with a retrieval chain over a Gemini model, and keeps conversations,
corpora, PDF documents and file versions in the database. An admin site and
several management commands maintain these records.

This project models the deterministic logic around those libraries as pure
Dafny functions over immutable datatypes. The database tables, the file
system, the session, the vector store and the language model are modelled as
values or as function-typed parameters.

- `Chat` (`chat_service.py`) covers model and chain caching, `get_response`
  with its fallbacks, the conversion of the stored history into chat
  messages, and the citation bundle built by `extract_source_info`.
- `VectorDb` (`vectordb_service.py`) covers how each corpus record is
  rendered into a passage with metadata, skipping unreadable PDFs, the empty
  check of `create_vectorstore` and the load-or-rebuild rule of
  `get_vectorstore`.
- `Conversation` (the chat views of `views.py`) treats the message table as
  state. It covers `send_message`, `get_chat_history` and `clear_chat`.
- `Cleanup` (`cleanup_old_sessions.py`) covers selecting inactive sessions,
  the dry run and the deletion.
- `Documents` (`document_service.py`) covers the `docs` folder: the
  case-insensitive PDF listing, partitioning an upload batch against a
  snapshot, deletion, and the size summary.
- `Scraper` (`scraper_service.py`) covers the CSS-class → label maps, link
  completion, the three-strategy detail parser, per-record error containment,
  the result of a run and the corpus summary.
- `Registry` (`models.py`) covers the `save`/`delete` hooks, tag splitting,
  the `records_count` rules and the restriction of updates to existing
  attributes.
- `FileManager` (`file_manager_service.py`) covers creating and updating
  corpora and PDF documents, version backups, restoring and the version list.
- `Seeding` (`populate_initial_data.py`, `create_sample_pdfs.py`) covers the
  forced and unforced loaders and idempotent sample creation.
- `Admin` (`admin.py`) covers the preview and truncation helpers, the badge
  colour fallbacks and the bulk backup action.
- `Views` (the upload, regeneration and admin corpus views of `views.py`).

Helper modules:

- `Wrappers` holds `Option` and `Result`.
- `Strings` holds the Python string operations the code uses.
- `Dict` models a Python `dict` as an insertion-ordered association list.
- `Json` holds parsed JSON values.
- `Ordering` holds stable sorting, filtering and de-duplication.
- `Passages` holds the retrieved `Document`s.

## Model

| member | source | states |
|---|---|---|
| Chat.GetLlm | myapp/services/chat_service.py:28-42 | A cached model is reused unchanged. Otherwise a model is created exactly when the provider accepts the connection. |
| Chat.CreateChain | myapp/services/chat_service.py:44-72 | No chain without a model or when assembling fails. A built chain retrieves k = 15 passages. |
| Chat.GetChain | myapp/services/chat_service.py:74-88 | A cached chain is returned as it is and nothing is rebuilt. Otherwise the result is the one of building a new chain. |
| Chat.Converted | myapp/services/chat_service.py:129-137 | The reference conversion never yields more messages than it is given. Order and role mapping are stated by the two lemmas that follow. |
| Chat.ConvertedAppend | myapp/services/chat_service.py:129-137 | Conversion distributes over concatenation, so a longer history converts to an extension of its prefix's conversion. |
| Chat.ConvertedFaithful | myapp/services/chat_service.py:131-136 | Each converted message carries the content of an input message with the matching role. |
| Chat.ConvertMessages | myapp/services/chat_service.py:119-137 | The loop of `convert_to_langchain_messages` computes the reference conversion. |
| Chat.GetResponse | myapp/services/chat_service.py:90-117 | Failures of the chain call never propagate. No chain gives the fixed apology with no passages. A failed call gives the error text with no passages. Otherwise the result is the chain's answer and context. |
| Chat.NoModelNoCitations | myapp/services/chat_service.py:103-106 | Without a cached chain and without a reachable model, any question gets the fixed apology and no passages. |
| Chat.CollectPdfKeys | myapp/services/chat_service.py:151-161 | The grouping loop creates one entry per distinct PDF base name, in order of first retrieval, even when no passage has a page. |
| Chat.CollectPdfGet | myapp/services/chat_service.py:155-161 | The entry of a PDF holds exactly the pages of its passages, in retrieval order. |
| Chat.CollectWebKeys | myapp/services/chat_service.py:151-166 | One entry per distinct non-PDF source, "Desconocido" when the source is missing, in order of first retrieval. |
| Chat.CollectWebGet | myapp/services/chat_service.py:162-166 | The entry of a web source holds exactly the titles of its passages. |
| Chat.PageLabels | myapp/services/chat_service.py:171 | Each page becomes its text label, in order. |
| Chat.CleanPages | myapp/services/chat_service.py:168-174 | The page labels are duplicate-free, hold exactly the labels given, and are sorted by numeric value, with non-digit labels ranking as 0. |
| Chat.CleanTitles | myapp/services/chat_service.py:176-178 | The titles are duplicate-free and hold exactly the titles given. |
| Chat.ExtractSourceInfo | myapp/services/chat_service.py:139-183 | The PDF keys are the distinct base names of the retrieved PDF passages, and the web keys the distinct other sources, both in order of first retrieval. |
| Chat.NoCitations | myapp/services/chat_service.py:148-150 | An empty context gives empty `pdf_sources` and `web_sources`. |
| Chat.PdfCitation | myapp/services/chat_service.py:153-174 | A PDF is cited iff one of its passages (by base name, source ending in ".pdf") was retrieved. Its entry lists every retrieved page once, as text, in ascending numeric order. |
| Chat.PageCited | myapp/services/chat_service.py:158-161 | A page label appears for a PDF iff some retrieved passage of that PDF has that page. |
| Chat.WebCitation | myapp/services/chat_service.py:162-178 | A web source is cited iff one of its passages was retrieved, and its entry lists exactly that source's titles, each once. |
| VectorDb.JoinTags | myapp/services/vectordb_service.py:101-102 | Joining succeeds on strings and objects, and on a list exactly when every item is a string. It raises on null, booleans and numbers. |
| VectorDb.JoinTagsStrings | myapp/services/vectordb_service.py:101-102 | A list of strings joins to those strings separated by ", ". |
| VectorDb.CleanValue | myapp/services/vectordb_service.py:109 | The cleaned value has no newline and no surrounding white space. |
| VectorDb.ContenidoLines | myapp/services/vectordb_service.py:107-112 | An object with single-line keys renders as exactly one "- key: value" line per entry. |
| VectorDb.PageContent | myapp/services/vectordb_service.py:114-123 | The passage text opens with the indented title line and ends with the details block followed by the closing indentation. |
| VectorDb.RenderRecordSpec | myapp/services/vectordb_service.py:97-135 | A record renders iff it is an object whose tags join. The passage's source is "corpus_utpl.json", it carries the title, link and level (or their defaults), and it opens with the title line. |
| VectorDb.RenderEmptyRecord | myapp/services/vectordb_service.py:98-104 | A record with no keys renders with the defaults "Beca sin título", "", "General", empty tags and empty details. |
| VectorDb.RenderPrefix | myapp/services/vectordb_service.py:97-142 | The passages built before the first failing record are kept, one per record in order, and the record after them is the one that fails. |
| VectorDb.ExtractJsonText | myapp/services/vectordb_service.py:74-142 | A missing or undecodable file gives nothing. Every passage is tagged "corpus_utpl.json". For a list, the result is the rendered prefix that stops at the first failing record. |
| VectorDb.JsonOnePerRecord | myapp/services/vectordb_service.py:97-135 | When every record renders, there is exactly one passage per record, in input order. |
| VectorDb.PdfPassagesAppend | myapp/services/vectordb_service.py:64-70 | Reading distributes over the file list, so an unreadable file does not stop the others. |
| VectorDb.ExtractPdfText | myapp/services/vectordb_service.py:47-72 | A missing directory gives nothing. Otherwise the result is every readable file's pages, in list order. |
| VectorDb.UnreadableSkipped | myapp/services/vectordb_service.py:68-70 | An unreadable PDF contributes nothing to the passages. |
| VectorDb.CreateVectorstore | myapp/services/vectordb_service.py:192-239 | There is no index when PDF and corpus passages are both empty or the build fails. Otherwise the index is built from the split PDF passages followed by the corpus passages. |
| VectorDb.GetVectorstore | myapp/services/vectordb_service.py:241-257 | A loaded index is returned unless regeneration is forced. Otherwise the result is `create_vectorstore`'s. |
| VectorDb.RebuildOnlyWhenNeeded | myapp/services/vectordb_service.py:252-257 | The index is rebuilt only when forced or when nothing loads, and a rebuild over no passages gives no index. |
| Conversation.OfSession | myapp/views.py:687-690 | A message is selected exactly when it is in the table and belongs to the session. |
| Conversation.History | myapp/views.py:687-690 | The session's messages sorted by creation time. The result is a permutation of that session's messages. Equal times are kept in insertion order, an order the database does not promise (see "## Left out"). |
| Conversation.SendMessage | myapp/views.py:650-741 | An invalid form answers 400 and a missing index answers 500, and neither writes anything. Otherwise the human question and then the AI answer are appended under the session key, each stamped with its own clock reading, and the reply carries the citations of the retrieved passages. |
| Conversation.AppendTurns | myapp/views.py:701-719 | Appending two messages of one session extends that session by exactly them and leaves every other session unchanged. |
| Conversation.AppendTurnsHistory | myapp/views.py:701-719 | A question stamped later than anything stored, and an answer stamped later than the question, come last in their session's ordered history, question before answer. |
| Conversation.SendAppendsTwo | myapp/views.py:701-719 | A successful request adds exactly the question and then the answer to its own session, and every other session is unchanged. |
| Conversation.SendExtendsHistory | myapp/views.py:686-719 | If the clock moves forward between requests, the session's ordered history after a request is the previous history plus question and answer. |
| Conversation.DegradedAnswerStored | myapp/views.py:697-719 | A degraded answer (no chain, no model) is still stored as the AI turn, and the reply cites nothing. |
| Conversation.Entries | myapp/views.py:757-768 | One history entry per message, with its role, content and time, in order. |
| Conversation.GetChatHistory | myapp/views.py:745-773 | Without a session the reply is empty. Otherwise it holds exactly the entries of the session's messages, each as often as stored, in non-decreasing creation time. |
| Conversation.EntriesPermutation | myapp/views.py:760-767 | Rearranging messages rearranges their entries the same way. |
| Conversation.ChatHistoryAfterSend | myapp/views.py:745-773 | If the clock moves forward between requests, after a successful request the history reply of that session grows by exactly the question and the answer, with their two timestamps. |
| Conversation.ClearChat | myapp/views.py:886-928 | Without a session nothing happens and the count is 0. Otherwise only that session's messages are deleted, the count is their number, and the cached chain is dropped. |
| Conversation.ClearChatFrame | myapp/views.py:892-921 | After clearing, the session has no messages, and every other session keeps its messages in order. |
| Cleanup.SessionKeys | myapp/management/commands/cleanup_old_sessions.py:52-56 | Every session with a message appears once, in first-seen order. |
| Cleanup.LastActivity | myapp/management/commands/cleanup_old_sessions.py:52-56 | The latest creation time of a non-empty group is one of its messages' times and bounds all of them. |
| Cleanup.Selected | myapp/management/commands/cleanup_old_sessions.py:39-56 | The selected session keys are distinct. `Cleanup.SelectedIff` characterises which keys they are. |
| Cleanup.SelectedIff | myapp/management/commands/cleanup_old_sessions.py:52-56 | A session is selected iff it has a message and all its messages are strictly older than `now - hours`. |
| Cleanup.RecentSessionNotSelected | myapp/management/commands/cleanup_old_sessions.py:52-56 | A session with a message at or after the cutoff is never selected. |
| Cleanup.Sweep | myapp/management/commands/cleanup_old_sessions.py:34-104 | Nothing selected returns early with nothing deleted, and a dry run deletes nothing. A real run deletes exactly the messages of selected sessions and reports their count. |
| Cleanup.DryRunPredictsDeletion | myapp/management/commands/cleanup_old_sessions.py:67-94 | A dry run would clean exactly when a real run cleans, and then announces exactly the number of messages the real run deletes. |
| Cleanup.SweepFrame | myapp/management/commands/cleanup_old_sessions.py:86-88 | After a real run, selected sessions have no messages, and every other session keeps its messages in order. |
| Cleanup.ActiveSessionKept | myapp/management/commands/cleanup_old_sessions.py:52-88 | A session active at or after the cutoff keeps all of its messages in either mode. |
| Documents.Open | myapp/services/document_service.py:16-24 | After opening, the folder exists and holds the same files as before. A missing folder is created empty. |
| Documents.PdfNameAnyCase | myapp/services/document_service.py:38 | The PDF test ignores the case of the extension and nothing else. |
| Documents.GetExistingDocuments | myapp/services/document_service.py:26-39 | A missing folder lists nothing. Otherwise a name is listed exactly when it is in the folder and its lower-cased form ends in ".pdf". |
| Documents.Partition | myapp/services/document_service.py:54-87 | The saved, skipped and error lists together have exactly one entry per uploaded file. |
| Documents.WrittenNames | myapp/services/document_service.py:68-76 | The names written to the folder are exactly the names reported as saved. |
| Documents.SaveUploadedFiles | myapp/services/document_service.py:41-87 | The report is the partition against the snapshot taken before the loop. The folder changes only by the files whose write succeeded. |
| Documents.SaveAgainst | myapp/services/document_service.py:59-81 | The loop against a fixed snapshot computes the reference partition, and the folder changes only by the files whose write succeeded. |
| Documents.PartitionAppend | myapp/services/document_service.py:59-81 | Partitioning distributes over concatenation, so each list keeps the input order. |
| Documents.PartitionSkipped | myapp/services/document_service.py:63-65 | A file is skipped iff its name was in the snapshot. |
| Documents.PartitionSaved | myapp/services/document_service.py:63-76 | A file is saved iff its name was not in the snapshot and writing it succeeded. |
| Documents.SkippedNotWritten | myapp/services/document_service.py:63-65 | A file already in the folder is never rewritten. |
| Documents.SameNameBothSaved | myapp/services/document_service.py:54-76 | Two new files with one name in a batch are both reported as saved, and the folder then holds the second one's size under that name. |
| Documents.DeleteDocument | myapp/services/document_service.py:89-112 | Success holds exactly when the folder has the file and removing it does not fail, and then exactly that file is gone. A missing file reports "does not exist". A failure leaves the folder unchanged. |
| Documents.Described | myapp/services/document_service.py:126-138 | There is at most one entry per listed name. |
| Documents.GetDocumentInfo | myapp/services/document_service.py:114-145 | `total_count` counts every listed PDF, even unreadable ones. `total_size` sums the sizes of the described ones. |
| Documents.AllDescribed | myapp/services/document_service.py:126-138 | When every size can be read, every listed PDF is described with its size. |
| Registry.VersionLabel | myapp/services/file_manager_service.py:109 | The version text of a backup is the record's version when non-empty and the default otherwise. |
| Registry.SyncSize | myapp/models.py:204-208 | Saving a record with a file copies the stored file's size into `file_size`. A record without a file is unchanged, and a file missing from storage fails. |
| Registry.SyncSizeFrame | myapp/models.py:333-337 | Saving changes no attribute but `file_size`. |
| Registry.Known | myapp/services/file_manager_service.py:133-135 | An update is kept exactly when it names an attribute the record has. |
| Registry.ApplyUpdatesGet | myapp/services/file_manager_service.py:133-135 | Updates never add or remove attributes. An existing attribute takes the last value given for it, and names the record lacks are ignored. |
| Registry.ApplyUpdatesKnown | myapp/services/file_manager_service.py:298-300 | Applying all updates is the same as applying only the known ones. |
| Registry.TagsList | myapp/models.py:343-347 | Empty or missing tags give no tag. Otherwise there is one tag per comma-separated piece (commas + 1), empty pieces kept, each with no surrounding white space. |
| Registry.TagsRoundTrip | myapp/models.py:346 | Tags without white space split into pieces that join with commas back to the original text. |
| Registry.CountRecords | myapp/views.py:173 | The views' and file manager's rule: the length of a JSON list, and 1 for any other value. |
| Registry.PopulateRecordsCount | myapp/management/commands/populate_initial_data.py:57-63 | The loader's rule: a list counts its length, and an object without `data` counts 0. Any other top-level value fails, as Python raises there. |
| Registry.RecordsCountRules | myapp/management/commands/populate_initial_data.py:60 | The two rules agree on every list. The views count every object as 1, while the loader counts its `data` entry: 0 for an empty list and 2 for a two-element one. |
| Registry.FirstWith | myapp/management/commands/populate_initial_data.py:50 | A found row has the attribute with that value. Nothing is found exactly when no row has it. |
| Registry.LastWith | myapp/models.py:320-321 | A found row has the attribute with that value and no later row has it. Nothing is found exactly when no row has it. |
| Registry.UniqueFirstIsLast | myapp/models.py:140-144 | With unique names, the oldest and the newest row with a name are the same row. |
| Registry.ReplaceKeepsUniqueNames | myapp/models.py:140-144 | Overwriting a row keeps names unique exactly when its new name is no other row's. |
| Registry.DeleteRow | myapp/models.py:214-219 | The row is removed, and its file is removed from storage when stored. The other rows stay, in order. |
| FileManager.FreshName | myapp/models.py:156 | The name returned is free in storage, starts with the requested path, and equals it when that path is free. |
| FileManager.Store | myapp/services/file_manager_service.py:66-74 | The content is stored under a previously free path that starts with `dir/name`. That path is returned, and it is the only key added. |
| FileManager.StoreOther | myapp/services/file_manager_service.py:66-74 | Storing a file changes no other stored path. |
| FileManager.Find | myapp/services/file_manager_service.py:101 | The index found holds the id, and no record has the id exactly when nothing is found. |
| FileManager.FindVersionLast | myapp/services/file_manager_service.py:404 | A version row appended after rows with smaller ids is found by its id. |
| FileManager.Attach | myapp/services/file_manager_service.py:66-74 | The record points at the stored copy, and `file_size` is the copy's length. |
| FileManager.AttachFrame | myapp/models.py:204-208 | Attaching a file changes no other attribute than the file and its size. |
| FileManager.InitialCount | myapp/services/file_manager_service.py:53-60 | With validation, a list counts its length and other JSON counts 1, while undecodable content is an error. Without validation the count is 0. |
| FileManager.NewCorpusRow | myapp/services/file_manager_service.py:66-74 | The inserted row has the given id, name and record count, and its `file_size` is the content's length. |
| FileManager.CreateJsonCorpus | myapp/services/file_manager_service.py:27-79 | Invalid JSON is rejected with nothing stored. A taken name fails with the stored file left behind. Success appends one row with the right count and stores the content. |
| FileManager.CreateKeepsNamesUnique | myapp/models.py:140-144 | Creating a corpus keeps corpus names unique. |
| FileManager.CreateVersionBackup | myapp/services/file_manager_service.py:338-372 | A readable file gives a new version row with its content, and the tables are otherwise unchanged. An empty or missing file gives nothing, never an error. |
| FileManager.BackupKeepsFiles | myapp/services/file_manager_service.py:338-372 | A backup leaves every stored file as it was. |
| FileManager.MaybeBackup | myapp/services/file_manager_service.py:104-111 | No backup is attempted unless a new file is given and a backup is asked for. The corpus and PDF tables are never changed. |
| FileManager.DropOld | myapp/services/file_manager_service.py:114-119 | With a new file, the record's old file is no longer in storage. |
| FileManager.Finish | myapp/services/file_manager_service.py:130-143 | The save succeeds exactly when the new name is no other corpus's and either a new file is given or the current one is stored or absent. On success the row is replaced in place with the updated attributes. A new file is stored at a fresh path whether or not the save succeeds. On failure only storage changes and the error is reported. Stored files and versions are never removed. |
| FileManager.FinishNoClash | myapp/models.py:140-144 | A successful save leaves no other corpus with the saved row's name. |
| FileManager.UpdateJsonCorpusAsWritten | myapp/services/file_manager_service.py:82-143 | An unknown id reports "not found". Invalid new JSON reports the decode error with no record and an unchanged corpus table. Otherwise the save succeeds exactly when the new name is free and a file is given or still stored, and a failed save reports "Error al actualizar corpus: " with the corpus table unchanged. |
| FileManager.InvalidUploadLosesFile | myapp/services/file_manager_service.py:113-128 | As written, an invalid upload leaves the record pointing at a file no longer in storage. |
| FileManager.UpdateJsonCorpus | myapp/services/file_manager_service.py:82-143 | With validation first, an unknown id or invalid upload leaves everything unchanged. Otherwise the save succeeds exactly when the new name is free and a file is given or still stored. A failed save reports "Error al actualizar corpus: " with the corpus table unchanged. On success only the record's row changes and it keeps its id. A new upload is in storage either way. |
| FileManager.CountKeepsName | myapp/services/file_manager_service.py:120-135 | Setting `records_count` does not change the name the updates leave. |
| FileManager.UpdateKeepsNamesUnique | myapp/models.py:140-144 | Updating a corpus keeps corpus names unique. |
| FileManager.UpdateCountKept | myapp/services/file_manager_service.py:120-135 | The counted records survive the attribute updates unless an update names `records_count`. |
| FileManager.UpdatePdfDocument | myapp/services/file_manager_service.py:247-308 | An unknown id reports "not found" and changes nothing. For a found id the save succeeds iff a new file is given or the current file is absent or still stored, since titles are not unique. A success replaces the row in place and keeps the other rows, with every attribute but `file_size` equal to the counted page fields with the updates applied. A failure keeps the rows and reports "Error al actualizar documento: ...". A new file's content becomes the record's file, and the corpus table is untouched. |
| FileManager.PageFields | myapp/services/file_manager_service.py:285-291 | A counted page count is stored, and otherwise the attributes stay. |
| FileManager.ReplaceSteps | myapp/services/file_manager_service.py:104-119 | A backup holding the replaced file's content is added iff a backup is asked for and that file is readable, whether or not the save succeeds, and no other version changes. |
| FileManager.UpdateBacksUp | myapp/services/file_manager_service.py:104-111 | An update creates a backup only with a new file and a backup request, and that backup holds the replaced content. With a readable old file the backup is made whether or not the save then succeeds, which it does exactly when the new name is free. |
| FileManager.UpdatePdfBacksUp | myapp/services/file_manager_service.py:269-276 | The same backup rule for PDF documents. |
| FileManager.UpdateSetsKnownFields | myapp/services/file_manager_service.py:133-135 | After an update, each existing attribute an update names has the given value, no attribute is added, and the others keep their values. |
| FileManager.UpdateCountsRecords | myapp/services/file_manager_service.py:120-143 | A well-formed new file is saved exactly when the new name is free, and then its records are counted (a list's length or 1) unless an update overrides the count. |
| FileManager.RestoreVersion | myapp/services/file_manager_service.py:392-455 | A missing version or record gives failure and no change. An unknown content type succeeds with no change. Otherwise the record's readable current file is first saved as one new version, described "Backup automático antes de restaurar versión" (no version when the file is empty or missing). Only the record's row changes, and a stored backup copy becomes the record's file content. On success every attribute of the row other than `file_size` is kept, `records_count` included. |
| FileManager.RestoreInto | myapp/services/file_manager_service.py:404-447 | Before restoring, the record's current file, when readable, is copied into exactly one appended version for that record, labelled with its version or "current" and described "Backup automático antes de restaurar versión". Otherwise the versions are unchanged. Only row `i` changes and no stored file is overwritten. A stored copy makes the restore succeed, with the copy as the record's file content and every attribute other than `file_size` kept, `records_count` included, whatever the restored content holds. A failure leaves the rows and reports the error. |
| FileManager.GetFileVersions | myapp/services/file_manager_service.py:375-389 | Exactly the versions of the given type and object, sorted newest first. |
| FileManager.NewestBackupFirst | myapp/services/file_manager_service.py:386-389 | A backup made at the latest time heads its record's version list. |
| FileManager.FindReplace | myapp/services/file_manager_service.py:101 | Replacing the found row by one with the same id keeps it the one found. |
| FileManager.UpdateThenRestore | myapp/services/file_manager_service.py:392-427 | Restoring the version an update backed up brings the replaced content back as the record's file, whether or not the update's save succeeded. |
| Scraper.Labels | myapp/services/scraper_service.py:60-61 | No more labels than the map has, and each label listed comes from a class that is present. |
| Scraper.LabelsComplete | myapp/services/scraper_service.py:60-61 | Every mapped class present yields its label. |
| Scraper.LabelsBySet | myapp/services/scraper_service.py:43 | The labels depend only on which classes are present, not on their order or repetition. |
| Scraper.ProcessMetadata | myapp/services/scraper_service.py:41-63 | At most 6 types and 3 modalities, and each label comes from a class that is present. |
| Scraper.UnknownClassesIgnored | myapp/services/scraper_service.py:45-61 | Adding unknown classes changes neither list. |
| Scraper.LabelsAll | myapp/services/scraper_service.py:60-61 | With every mapped class present, every label appears in map order. |
| Scraper.AllClasses | myapp/services/scraper_service.py:45-61 | The full class set yields all six types and all three modalities. |
| Scraper.CompleteUrl | myapp/services/scraper_service.py:154-159 | A non-empty href not starting with "http" gets the site prefixed. Absolute, empty or missing hrefs are unchanged. |
| Scraper.CompleteUrlIdempotent | myapp/services/scraper_service.py:154-159 | Completing a completed link changes nothing. |
| Scraper.FieldPairs | myapp/services/scraper_service.py:75-87 | A pair is listed iff some field block has both parts and gives it: its label with trailing ':' stripped, paired with its items. There is at most one pair per block, and the list is empty exactly when no block has both parts. |
| Scraper.FieldPairsAppend | myapp/services/scraper_service.py:80-87 | Field blocks are read in page order: the pairs of a split page are the first part's followed by the second's. |
| Scraper.RowPairs | myapp/services/scraper_service.py:89-98 | A pair is listed iff some row has two or more cells and gives it: its first cell with trailing ':' stripped, paired with its second cell. There is at most one pair per row, and the list is empty exactly when no row has two cells. |
| Scraper.RowPairsAppend | myapp/services/scraper_service.py:91-98 | Table rows are read in page order. |
| Scraper.ParseDetail | myapp/services/scraper_service.py:65-104 | No content region gives the single "Nota" entry, and the result is never empty. |
| Scraper.ParseDetailStrategies | myapp/services/scraper_service.py:71-104 | Field blocks first. Table rows only when no field block had both parts. "Información General" with the whole text only when neither gave a pair. |
| Scraper.SectionRecords | myapp/services/scraper_service.py:150-170 | At most one record per item, each carrying the section's level and empty details. |
| Scraper.BuildListing | myapp/services/scraper_service.py:134-170 | Every record's level is "Grado", "Posgrado" or "Tecnologías". |
| Scraper.Enrich | myapp/services/scraper_service.py:172-193 | Each record keeps its fields, and its details are the parsed page or {"Error": ...} when the page fails. |
| Scraper.ScrapeBecas | myapp/services/scraper_service.py:106-209 | Success iff the listing loads and saving succeeds. Then the records written are the listing's records, each enriched with its detail page, and the count equals their number. Otherwise it is (false, 0, "Error crítico en el scraping: " followed by the listing's or the save's error). |
| Scraper.DetailErrorContained | myapp/services/scraper_service.py:183-193 | A failing detail page replaces only that record's details, and the run still succeeds with every record. |
| Scraper.ScrapedRecordRenders | myapp/services/scraper_service.py:163-170 | Every scraped record renders in the indexer, with its title, link, level and joined types. |
| Scraper.ToJsonLookups | myapp/services/scraper_service.py:197-198 | A serialised record's keys are distinct, so each lookup finds the field written under it. |
| Scraper.ScrapedCorpusIndexed | myapp/services/scraper_service.py:195-203 | A written corpus indexes to exactly one passage per record, carrying the record's title. |
| Scraper.GetCorpusInfo | myapp/services/scraper_service.py:222-244 | A missing or unreadable file gives nothing. Otherwise the count is the data's length, with the reported size and time. |
| Scraper.CorpusInfoAfterScrape | myapp/services/scraper_service.py:236-240 | The summary of a successful run's corpus counts exactly the scraped records. |
| Seeding.ReadCount | myapp/management/commands/populate_initial_data.py:57-63 | A decode error, or a value the loader cannot measure, is a read error. Otherwise the result is the loader's count. |
| Seeding.Unload | myapp/management/commands/populate_initial_data.py:66-68 | When the named corpus exists exactly one corpus row is removed, and otherwise nothing changes. The PDF and version tables are untouched. |
| Seeding.Install | myapp/management/commands/populate_initial_data.py:71-82 | One corpus row is appended with the loader's attributes, count and stored file. The other tables are untouched. |
| Seeding.LoadJsonCorpus | myapp/management/commands/populate_initial_data.py:37-88 | A missing file does nothing, and so does an existing corpus without force. A read error changes nothing. Otherwise the corpus is loaded as the last row with the loader's count and its stored file. |
| Seeding.UnloadClears | myapp/management/commands/populate_initial_data.py:66-68 | After the deletion no row has the corpus name, and names stay unique. |
| Seeding.LoadKeepsNameUnique | myapp/models.py:140-144 | A forced reload keeps names unique, and the loaded corpus is the only one with its name. |
| Seeding.LoadTwice | myapp/management/commands/populate_initial_data.py:49-54 | After a successful load, running the loader again without force reports the corpus as already loaded and changes nothing. |
| Seeding.DocTitleShape | myapp/management/commands/populate_initial_data.py:115 | A derived title is as long as the stem and contains no underscore. |
| Seeding.TitleFromAt | myapp/management/commands/populate_initial_data.py:115 | At each position `title()` upper-cases a cased character with no cased character before it, lower-cases one that follows a cased character, and keeps anything else. |
| Seeding.DocTitleAt | myapp/management/commands/populate_initial_data.py:115 | Position by position, a derived title has a space exactly where the stem has an underscore or a space, an upper-case letter where a word starts (except ß, ª and º), a lower-case letter inside a word, and the stem's character elsewhere. |
| Seeding.GlobMissesUpperCase | myapp/management/commands/populate_initial_data.py:102 | Every file name ending in an upper-case ".PDF" is listed by the document service and missed by the loader's pattern. |
| Seeding.LoadPdf | myapp/management/commands/populate_initial_data.py:113-145 | An existing title is left alone without force. A file is loaded exactly when it is readable and forced or new, and then its row is last, with its content stored and its title present. Under force the rows are those left by evicting the newest document with the title, plus the loaded one. |
| Seeding.Evict | myapp/management/commands/populate_initial_data.py:116-124 | Under force the newest document with the title is deleted, with its file. Without such a document nothing changes. |
| Seeding.LoadPdfKeepsTitles | myapp/management/commands/populate_initial_data.py:116-120 | Without force, one step keeps the loaded titles and adds the file's when it is readable. |
| Seeding.LoadPdfDocuments | myapp/management/commands/populate_initial_data.py:90-150 | A missing `docs` folder does nothing. `loaded` is at most the number of PDFs, and equals it when forced and all are readable. Without force, rows are only appended and every readable PDF's title is present. |
| Seeding.CreateSamples | myapp/management/commands/create_sample_pdfs.py:69-91 | Rows are only appended, and the count is the number appended. Corpora, versions and stored files are untouched. |
| Seeding.CreateSampleRecords | myapp/management/commands/create_sample_pdfs.py:31-96 | The command over its four samples creates at most four rows. |
| Seeding.CreateStep | myapp/management/commands/create_sample_pdfs.py:72-88 | Appending a sample keeps the earlier titles present and adds its own, which was absent before the run. |
| Seeding.SamplesPresent | myapp/management/commands/create_sample_pdfs.py:69-91 | Afterwards every sample's title is present. |
| Seeding.NewRowsStep | myapp/management/commands/create_sample_pdfs.py:72-88 | Each step keeps every created row traceable to a sample whose title was absent before. |
| Seeding.SamplesNewRows | myapp/management/commands/create_sample_pdfs.py:69-91 | Every row created comes from a sample whose title was absent before. |
| Seeding.SampleCreatedIff | myapp/management/commands/create_sample_pdfs.py:72-74 | A sample is created iff no PDF record had its title before. |
| Seeding.SamplesIdempotent | myapp/management/commands/create_sample_pdfs.py:72-74 | With every title present, the command creates nothing. |
| Seeding.CreateSampleRecordsTwice | myapp/management/commands/create_sample_pdfs.py:69-91 | A second run creates zero records and changes nothing. |
| Admin.ContentPreview | myapp/admin.py:33-34 | Text of at most 50 characters is unchanged. Longer text becomes its first 50 characters plus "...". |
| Admin.PreviewFixedPoint | myapp/admin.py:33-34 | The preview is the identity exactly on short texts and on 50 characters followed by "...". |
| Admin.SessionKeyShort | myapp/admin.py:29-30 | The key's first eight characters (fewer for a shorter key) followed by "...". |
| Admin.SessionKeyShortPrefix | myapp/admin.py:47-48 | Keys sharing their first eight characters are shown alike. |
| Admin.ErrorPreview | myapp/admin.py:61-64 | A missing or empty error shows "-". Otherwise the error is cut like a content preview. |
| Admin.ErrorPreviewDash | myapp/admin.py:61-64 | "-" is shown iff the error is missing, empty, or "-" itself. |
| Admin.Colour | myapp/admin.py:151 | A listed value gets its colour, and any other value gets '#6c757d'. |
| Admin.ColourTablesMatchChoices | myapp/admin.py:143-151 | Each colour table names exactly the choices of the field it decorates. |
| Admin.CorpusBadgeGrey | myapp/admin.py:145-151 | A corpus badge is grey iff the type is "general" or not a corpus type. |
| Admin.StatusBadgeGrey | myapp/admin.py:381-388 | A status badge is grey iff the status is a draft or unknown. |
| Admin.DocumentBadgeGrey | myapp/admin.py:362-372 | A document badge is grey iff the type is "other" or unknown. |
| Admin.ContentTypeBadge | myapp/admin.py:575-585 | JSON for 'json_corpus', and PDF for anything else. |
| Admin.ContentTypeBadgeTables | myapp/admin.py:575-585 | The badge tells the two version tables apart. |
| Admin.CreateBackupVersions | myapp/admin.py:255-271 | Versions are only appended, and the count is their number. Each is a manual backup of a selected row. Every selected row with a stored file gets its own backup: a version with that row's id, its version label, the manual-backup description and the current time. The tables and stored files are unchanged. |
| Admin.BackupKeepsOriginal | myapp/admin.py:514-530 | A backup keeps every previously stored file. A selected row whose file is stored always gets its backup. |
| Admin.BackupAppends | myapp/admin.py:259-268 | One backup appends at most one version: a manual backup of the selected row. |
| Views.CreateUploads | myapp/views.py:802-808 | As written: rows are only appended, all names are added on success, and uniqueness of (session, filename) is kept. |
| Views.CreateUploadsSucceeds | myapp/views.py:802-808 | The inserts all succeed iff the names are distinct and none is already recorded for the session. |
| Views.RecordUploads | myapp/views.py:802-808 | Corrected: existing rows are kept, the log stays unique, and every saved name is recorded for the session. |
| Views.MarkProcessed | myapp/views.py:817-820 | A row is marked processed iff it belongs to the session and its name was saved. Other fields and rows are unchanged. |
| Views.AfterRecording | myapp/views.py:811-824 | Nothing saved changes no index and no chain. Otherwise the saved rows are marked, the index is rebuilt and the cached chain dropped. |
| Views.UploadDocumentsAsWritten | myapp/views.py:777-841 | An invalid form or no files changes nothing. A failed insert leaves index and chain unchanged. A completed upload regenerates iff something was saved. |
| Views.SavedFolder | myapp/views.py:794-795 | The folder exists afterwards, since the service constructor creates it. It holds its old files with the written ones put in. |
| Views.SameNameBatchFails | myapp/views.py:802-808 | Two same-named new files in one batch make the request fail after the file was written, with the index not rebuilt. |
| Views.UploadDocuments | myapp/views.py:777-841 | Corrected: the request completes. The report is the partition of the batch, the log stays unique and records every saved name, and regeneration happens iff something was saved. |
| Views.MarkKeepsRecorded | myapp/views.py:817-820 | Marking rows keeps every recorded (session, name) pair. |
| Views.UploadMarksSaved | myapp/views.py:811-820 | A row ends processed iff it was already processed, or it belongs to the session and its name was saved. |
| Views.NewRowsUnprocessed | myapp/views.py:807 | Rows added by the bookkeeping start unprocessed. |
| Views.RegenerateVectordb | myapp/views.py:989-1039 | No PDFs and no corpus gives 400 with nothing changed. 200 holds exactly when the guard passes and a build succeeds; then the chain is dropped and the PDF count and corpus flag are reported. A 500 leaves no index. Folder, uploads and session key never change. |
| Views.RegenerateKeepsIndexOnlyWhenGuarded | myapp/views.py:1007-1016 | The index survives only when the guard answers. Past the guard, a failed build has already deleted it. |
| Views.AdminCorpusUpload | myapp/views.py:152-199 | A missing file and undecodable content are rejected with nothing changed. Success holds exactly when the content decodes and the name is free, and it appends one row counted as a list's length or 1, with the content stored. |
| Views.AdminUploadMatchesService | myapp/views.py:168-180 | For an active corpus, the admin form inserts the same row and stores the same file as the file manager's validated `create_json_corpus`. |
| Views.AdminCorpusEdit | myapp/views.py:236-272 | An unknown id or undecodable file changes nothing. Otherwise the save fails exactly when the edited name is another corpus's or, without a new file, the current file is missing, and reports "Error al actualizar: ". Only storage changes on failure, and a new upload stays stored. On success only the edited row changes, and a new file's content is stored and counted. Old stored files are always kept. |
| Views.CountInto | myapp/views.py:261 | `records_count` takes the new count exactly when the edited attributes have it, and the name is untouched. |
| Views.SaveEdited | myapp/views.py:264-271 | Saving fails exactly when the current file is missing or the name is another corpus's, and then only storage changes. Otherwise the row is written back in place, with every attribute but `file_size` as edited. |
| Views.EditWithFile | myapp/views.py:254-271 | With a new file the save succeeds exactly when the edited name is no other corpus's. The upload is stored either way and old files are kept. On success the row points at the upload and carries its count. |
| Views.AdminEditKeepsNamesUnique | myapp/models.py:140-144 | Editing a corpus keeps corpus names unique. |

## Left out

- The text splitter (`get_text_chunks`) is a function parameter. The library's chunking with 2000/300 is not modelled.
- Embedding models, Chroma persistence and similarity search are left out, because they are foreign libraries over floating point. The index is modelled as a value, and retrieval is a parameter.
- The Gemini call and the prompt template are left out. The model call is a function-typed parameter that may fail, and its exception text is a string.
- Selenium driving, `time.sleep` and BeautifulSoup traversal are left out. The scraper works on abstract pages (field blocks, table rows, text) and on listings of items with classes and links.
- PyPDF page extraction is a parameter (`read`), and page counting in `update_pdf_document` is a parameter too.
- File-system, ORM and HTTP I/O are values and parameters. The folder and storage are maps from paths to contents. Tables are sequences of rows in table order, and replies are datatypes.
- Exception texts of foreign code are parameters or fields of the environment, and failures other than the ones named in each contract (decode errors, missing files) are not modelled.
- The generic exception handler of `regenerate_vectordb` at myapp/views.py:1041-1047 is not modelled.
- The upload subdirectories `%Y/%m/` of the file fields are left out. Storage names are made unique with a suffix of underscores instead of the storage's random suffix.
- MB/KB size displays and rounding in models, admin and the document service are left out, because they use floats.
- `get_storage_stats` is left out, because it uses floats and names an unimported module.
- Timestamp formatting in the history reply is left out; times are integers.
- The `related_corpus` foreign key of the loaders is left out.
- `create_pdf_document`, `get_active_corpus`, `load_json_content`, `get_public_documents` and `search_documents` of the file manager are left out, because the views modelled here do not call them.
- Python's `set` iteration order is not modelled. Page labels with equal sort keys, and web titles, keep first-seen order. Every contract states only what holds under any order.
- JSON text rendering (`str(v)` of a non-string value) uses a representation without Python's escaping of quotes inside strings.
- `str.title()` and `str.lower()` are modelled for the letters of the Latin-1 range (ASCII letters, À to ÿ without × and ÷, and ª, º, µ), plus Ÿ, Greek Μ and Greek μ, the case partners of ÿ and µ. Letters of other scripts count as uncased.
- Seeding.DocTitleShape: a stem with a word-initial ß is one character longer after Python's `title()`, which writes "Ss" for it. The model keeps ß, so the length equality holds for the model but not for such stems.
- Seeding.TitleFromAt: at a word-initial ß the model keeps ß where Python writes the two letters "Ss". Positions after such a ß are shifted by one in Python's result.
- Seeding.DocTitleAt: the same word-initial ß case as `TitleFromAt`. Its word-start clause excludes ß, ª and º; ª and º genuinely have no upper-case form.
- Admin bulk actions other than `create_backup_version` are left out: activate/deactivate, publish/archive, make_public/make_private and mark_as_processed. They are single-attribute updates.
- The corpus `status_badge` is left out, because it shows fixed text for a boolean and has no colour table.
- `admin_corpus_view`, `admin_corpus_toggle`, `admin_corpus_delete`, the admin PDF views, `update_becas`, `test_bot`, the dashboards and the message admin views are left out, because they are outside the modelled core.
- Templates, `render_partial_or_base`, `urls.py`, `forms.py` and the `check_database` command are left out. Form validation is a boolean or an `Option` parameter.
- The Django session framework is reduced to an optional key, a fresh key for a new session and the cached chain.
- Concurrency is left out: index rebuilds and session writes have no locking in the application.
- Chat.GetResponse: only the three provider errors caught at myapp/services/chat_service.py:38 are modelled as a failed connection. Any other error raised while the model client is built (a missing API key, for instance) propagates out of `get_response` in the source, because that call is outside its `try`. The model has no such outcome.
- Chat.CreateChain: the chain's internals (prompt, retriever wiring) are not modelled; only the retrieval depth and the success conditions are stated.
- Documents.SaveUploadedFiles: a write that fails after `open(path, 'wb')` has created or truncated the file leaves an empty or partial file behind (myapp/services/document_service.py:68-71). The model treats a failed write as writing nothing, because how much was written before the failure is unknown.
- Documents.SaveAgainst: the same simplification as `SaveUploadedFiles`; a failed write leaves no trace in the folder.
- Registry.Known: `hasattr` is modelled over the record's data attributes only. The primary key (`id`, `pk`), `file`, `created_at`, `updated_at` and the model's methods also pass `hasattr` in the source. An update naming one of them is ignored here, both by `Known` and by `Registry.ApplyUpdates`, because assigning them replaces parts of the instance that the record model does not hold.
- Json has no floating-point numbers. A value such as `1.5` cannot be represented, so `VectorDb.ExtractJsonText`, `VectorDb.CleanValue` and the record-count rules are stated for null, boolean, integer, string, list and object values only.
- Views.AdminCorpusUpload: every failure of the parser parameter answers "El archivo no es un JSON válido". An upload that is not valid UTF-8 raises `UnicodeDecodeError` at myapp/views.py:168, which the generic handler reports as "Error al crear corpus: …". The parser parameter does not tell byte decoding apart from JSON parsing.
- Views.AdminCorpusEdit: the same simplification; a non-UTF-8 upload raises `UnicodeDecodeError` at myapp/views.py:256, which the view reports as "Error al actualizar: …", not as invalid JSON.
- VectorDb.CreateVectorstore: `Chroma.from_documents` with a `PersistentClient` on an existing directory adds the new chunks to the collection already stored there (myapp/services/vectordb_service.py:225-233). The model's index holds only the chunks of this build, so it promises less than the source does about what a later search can return.
- VectorDb.GetVectorstore: a forced rebuild inherits that simplification. Only `regenerate_vectordb` removes the directory first (myapp/views.py:1013-1016). The forced rebuilds at myapp/views.py:380, 585, 814 and 866 append to the stored collection, so repeated uploads leave earlier chunks, and duplicates of them, in the source's index.
- Views.AfterRecording: the rebuild after an upload (myapp/views.py:814) is such an appending rebuild. The model's new index is the build over the current folder and corpus alone.
- Conversation.History: `order_by('created_at')` leaves the order of rows with equal `created_at` to the database. The model's stable sort keeps them in insertion order. The lemmas about the two new turns (`AppendTurnsHistory`, `SendExtendsHistory`, `ChatHistoryAfterSend`) therefore require strictly increasing times, where the order is fixed.
- Scraper.ScrapeBecas: `open(save_path, "w")` truncates the corpus file before `json.dump` writes it (myapp/services/scraper_service.py:196-198). A dump that fails part-way leaves an empty or partial corpus behind. The model's failure reports `written == None` and does not model that truncated file.
- Seeding.LoadPdf: the newest document with a title is taken to be the last row appended with it. Rows with equal `created_at` come in an order the database chooses, which is not modelled.
- Scraper.ProcessMetadata: its own contract gives only the bounds and that every label comes from a present class. Completeness and map order are stated separately by Scraper.LabelsComplete and Scraper.LabelsAll.

## Findings

| source | as written | input that shows it | evidently intended | confidence | as-written member | corrected member |
|---|---|---|---|---|---|---|
| myapp/views.py:802-808 | One `UploadedDocument.objects.create` runs per saved file name. `save_uploaded_files` reports both files of a batch with the same new name as saved, so the second insert violates `unique_together = ['session_key', 'filename']` (myapp/models.py:84). The error is not caught, so the request fails after the file is written, without rebuilding the index or marking anything processed. | An empty `docs` folder and a batch of two files both named `n.pdf` (`Views.SameNameBatchFails`). | Record each saved name once per session (`get_or_create`), so the request completes and the index is rebuilt. | not executed | Views.UploadDocumentsAsWritten | Views.UploadDocuments |
| myapp/services/file_manager_service.py:113-128 | `update_json_corpus` removes the corpus's current file before it parses the new upload. An invalid upload returns an error, and the record keeps pointing at a file that no longer exists. | A corpus whose file is stored, updated with content that fails to decode (`FileManager.InvalidUploadLosesFile`). | Validate the new JSON before touching the stored file, so a rejected upload leaves the corpus as it was. | not executed | FileManager.UpdateJsonCorpusAsWritten | FileManager.UpdateJsonCorpus |
