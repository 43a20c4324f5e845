# Lead table of the tax-simulation backend, in Dafny

The backend (`app.py`) records each tax simulation as a lead in the CSV file
`dados_controle.csv`. An admin area lists those leads, counts them and marks
whether a lead has been contacted. This project models that lead table and
the bookkeeping done over it:

- `salvar_cadastro` appends one line. It writes the fixed seven-column header
  first when the file does not exist yet.
- `ler_cadastros` reads the rows back the way `csv.DictReader` does.
- `marcar_contato` sets the contact status of the first row whose e-mail
  matches. It then rewrites the whole file through `csv.DictWriter`.
- `admin_estatisticas` computes the total, the distinct e-mails and today's
  registrations.
- `admin_dados` builds the listing of all rows.
- `admin_login` checks the fixed credential pair.

The file is modelled at the level of CSV records:

- `LeadStore.LeadFile` holds whether the file exists (`present`) and its
  records (`lines`). Each record is the list of its unquoted cells, and the
  header is the first record.
- A row (`Leads.Row`) is the dictionary DictReader builds from one record
  under the file's first record.
- The three store operations are methods of `LeadFile`. The listing and
  statistics handlers are methods in `Admin` that call `ReadAll` and then
  loop over the rows as the source does. The login check is a function of
  the two request fields.
- Each method is proved against a specification function: `Leads.Appended`,
  `Leads.Table`, `LeadStore.Marked`, `Admin.Display`, `Admin.EmailSet` and
  `Admin.CountOn`. The lemmas state the source's promises about those
  functions.

Modules:

- `Leads` (leads.dfy): the header, the appended line, DictReader's view of
  the file, and the append round trip.
- `LeadStore` (lead_store.dfy): the `LeadFile` class and what `marcar_contato`
  does to the file.
- `Admin` (admin.dfy): login, listing and statistics.

Behaviour of the code that the model keeps, where a reader might expect
otherwise:

- "Registered today" is a substring test. A row counts when today's
  `dd/mm/yyyy` text occurs anywhere in its `Data_Cadastro` (app.py:186). It
  does not compare dates.
- `marcar_contato` with an e-mail that matches no row still answers success.
  It rewrites the file only when the file holds at least one row
  (app.py:235).
- The rewrite truncates the file before writing. DictWriter refuses a row
  that has a column outside the fixed header. It refuses after the header and
  the earlier rows have been written, so the file keeps only those, and the
  request fails (`LeadStore.ForeignFirstRowEmptiesFile`). In the model, this
  happens only with a file whose first record is not the fixed header. For
  example, an existing empty file turns the first appended line into the
  header (`Leads.AppendedTable`). In the program, a record longer than the
  header also makes DictWriter refuse its row (see "## Left out").
- An absent `status` is Python's `None`, which the CSV writer writes as
  `''`.

## Model

| member | source | states |
|---|---|---|
| `Leads.NewLine` | app.py:26-34 | The appended record has one cell per header column. Its contents are stated by `Leads.NewRowFields`. |
| `Leads.NewRowFields` | app.py:26-34 | Read back, a submission's row has exactly the seven columns and holds `nome`, `telefone`, `email`, `faturamento` and `tipo_empresa` (each `''` when absent), the timestamp, and `'pendente'`, each under its own column. |
| `Leads.HeaderDistinct` | app.py:21 | The seven header names are pairwise distinct. |
| `Leads.Zip` | app.py:47-50 | A row built from a record has only columns named in the header. |
| `Leads.ZipDistinct` | app.py:47-50 | Under a header without repeated names, a record with enough cells maps each column to its own cell and has no other column. |
| `Leads.HeaderRead` | app.py:47-50 | A seven-cell record read under the fixed header has exactly the seven columns, each holding its own cell. |
| `Leads.Records` | app.py:47-50 | DictReader never yields more rows than there are records after the header. |
| `Leads.Table` | app.py:40-51 | `ler_cadastros` returns `[]` when the file does not exist, and otherwise at most one row per record after the first. |
| `Leads.Appended` | app.py:17-34 | The new line goes last. An existing file keeps all its records before it. A missing file gets exactly the fixed header and the new line. |
| `Leads.RecordsOfNonEmptyLines` | app.py:46-51 | When no record is blank, there is one row per record, in file order, each built from its record. |
| `Leads.AppendedTable` | app.py:17-34 | After an append, the file reads back as the old rows plus the new one. The new row is read under the fixed header when the append created the file. It is read under the file's own first record otherwise. No row is added when the file existed but was empty, because the line then becomes the header. |
| `Leads.AppendToLeadFile` | app.py:24-34 | On a file that starts with the fixed header, an append adds exactly the submission's row after the unchanged old rows. |
| `Leads.FreshFileShape` | app.py:18-34 | Appends into a missing file leave exactly one header, first, followed by one record per submission in submission order. |
| `Leads.FreshFileTable` | app.py:14-51 | Round trip: N appends into a missing file read back as N rows, in order, with every field kept, including the `''` of absent fields. |
| `Leads.FixedHeaderKeys` | app.py:47-50 | Rows read from a file whose first record is the fixed header have no column outside it. |
| `LeadStore.FirstMatch` | app.py:229-232 | The index it returns is the first row whose `Email` equals the argument, or the table length when no row matches. |
| `LeadStore.Matches` | app.py:230 | A row without `Email` never matches. For a non-empty e-mail, a row matches exactly when its `Email` read with default `''` equals it. |
| `LeadStore.SetFirstStatus` | app.py:229-232 | The first loop keeps the row count. A row changes only if its `Email` matches, and then only its `Status_Contato`. The first matching row gets the new status. No other row changes, so nothing changes when no row matches. |
| `LeadStore.StatusCell` | app.py:216-231 | An absent `status` (Python's `None`) is stored as `''`. A present one is stored as given. |
| `LeadStore.Backfill` | app.py:241-242 | The back-fill adds only `Status_Contato`, with `'pendente'` when it was missing, and keeps every value the row had. |
| `LeadStore.SetStatusOfFirst` | app.py:229-232 | The loop that stops at the first row with the e-mail returns `LeadStore.SetFirstStatus` of the rows. |
| `LeadStore.RewriteRows` | app.py:235-243 | The write loop produces the header followed by one normalized record per row, up to the first row DictWriter refuses. It reports success exactly when no row is refused. |
| `LeadStore.FirstForeign` | app.py:236-243 | The index it returns is the first row DictWriter refuses, meaning it has a column outside the fixed header after the back-fill. All earlier rows are accepted. |
| `LeadStore.KnownFields` | app.py:238-243 | Every seven-column row is accepted by DictWriter. |
| `LeadStore.KnownFieldsKeys` | app.py:238-243 | DictWriter accepts a row exactly when its keys are among the seven fieldnames. |
| `LeadStore.Cells` | app.py:237-243 | DictWriter writes one cell per header column. |
| `LeadStore.Rewritten` | app.py:235-243 | The rewritten file is the fixed header followed by one seven-cell record for each row before the first refused one. |
| `LeadStore.Marked` | app.py:211-248 | The answer is `MissingEmail` exactly when the e-mail is missing or empty, and the file is then untouched. A file that changes starts with the fixed header. A failed rewrite needs at least one row and leaves no more records than there were rows. |
| `LeadStore.SetFirstStatusKnown` | app.py:229-243 | The status update keeps the row count, and it does not change whether a row is accepted by DictWriter. |
| `LeadStore.NormalizeFields` | app.py:240-243 | A rewritten row reads back with all seven columns: its own value where it had one, `'pendente'` for a missing status, and `''` otherwise. |
| `LeadStore.NormalizeCanonical` | app.py:240-243 | A row that already has exactly the seven columns reads back unchanged after a rewrite. |
| `LeadStore.NormalizeRewrites` | app.py:240-243 | A row without foreign columns is only completed by the rewrite. No value it had changes. |
| `LeadStore.RewrittenTable` | app.py:235-243 | The rewritten file reads back as the normalized rows that DictWriter wrote. That is all of them, unless it refused one. |
| `LeadStore.MarkRewrite` | app.py:229-245 | With a non-empty e-mail and a non-empty table, the update succeeds exactly when no row has a foreign column. The file then reads back as the updated rows, normalized. |
| `LeadStore.CanonicalMarkTable` | app.py:229-245 | When all rows have exactly the seven columns, the update succeeds and the file reads back as the updated rows with nothing added by the rewrite. |
| `LeadStore.MarkFirstMatchOnly` | app.py:229-245 | When all rows have exactly the seven columns, only the first row with the e-mail gets the new status. Every other row stays the same, including later rows with the same e-mail. The row count and order stay. |
| `LeadStore.MarkFirstMatchGeneral` | app.py:229-245 | On any file without foreign columns (for example a header naming only some of the seven), the update succeeds and keeps the row count. The first row with the e-mail gets the new status, and every row, later duplicates included, is otherwise only completed with its missing columns. |
| `LeadStore.MarkNoMatch` | app.py:229-245 | An e-mail that matches no row still answers success. The file stays untouched when it holds no row. Otherwise no row is added or removed, and each row is only completed. |
| `LeadStore.FixedHeaderMarkSucceeds` | app.py:236-243 | On a file with the fixed header, an update with a non-empty e-mail always succeeds. |
| `LeadStore.RewriteHasStatus` | app.py:240-243 | After a rewrite, every row in the file has a `Status_Contato` value. |
| `LeadStore.ForeignFirstRowEmptiesFile` | app.py:236-248 | When the first row has a foreign column, the update fails and leaves only the bare header in the file. |
| `LeadStore.DuplicateEmailMarksFirst` | app.py:229-232 | With two leads sharing an e-mail in a new file, marking that e-mail changes only the first lead. |
| `LeadStore.LeadFile.Missing` | app.py:18 | The store starts with no file and no records. |
| `LeadStore.LeadFile.Existing` | app.py:223-226 | The store starts from a file on disk with any contents. |
| `LeadStore.LeadFile.Append` | app.py:14-38 | The file exists afterwards, and its records are `Leads.Appended` of the old ones: the header only if the file was missing, then the new record. |
| `LeadStore.LeadFile.ReadAll` | app.py:40-54 | Returns `Leads.Table` of the file. That is `[]` when the file does not exist. Otherwise it is the records after the first, read under the first. |
| `LeadStore.LeadFile.MarkContact` | app.py:211-248 | A missing or empty e-mail answers `MissingEmail` and leaves the file untouched. Otherwise the answer and the new file are `LeadStore.Marked` of the old file. The file's existence does not change. |
| `Admin.Login` | app.py:134-143 | Succeeds exactly when `usuario` and `senha` are both present and equal to the fixed pair. |
| `Admin.AdminData` | app.py:146-168 | The listing has one entry per stored row, in the same order, and `total` equals that length. Each entry is the row with defaults: `''`, `'0'` for `Faturamento` and `'pendente'` for `Status_Contato`. |
| `Admin.Display` | app.py:154-162 | On every row, a present column shows its own value. A missing `Faturamento` shows `'0'`, a missing `Status_Contato` shows `'pendente'`, and any other missing column shows `''`. |
| `Admin.DisplayNewRow` | app.py:153-162 | A submitted lead is listed with its submitted values and status `'pendente'`. A revenue absent from the submission would be listed as `''`, not `'0'`; `calcular` always passes `faturamento` (app.py:95-102), so only a direct call of `salvar_cadastro` without it produces that. |
| `Admin.ListingOfFreshFile` | app.py:146-168 | Listing a file built by appends shows every submission's e-mail and timestamp, in order, each with status `'pendente'`. |
| `Admin.EmailSet` | app.py:182-191 | The set of distinct e-mails never holds `''` and has at most as many elements as there are rows. |
| `Admin.EmailSetMembers` | app.py:182-191 | The set holds exactly the non-empty e-mails that occur in some row. |
| `Admin.CountOn` | app.py:181-187 | At most the row count. It is zero exactly when no row is from today, and it equals the row count exactly when every row is. |
| `Admin.AdminStatistics` | app.py:174-198 | `total_simulacoes` is the row count. `total_usuarios` is the number of distinct non-empty e-mails. `cadastros_hoje` counts the rows whose timestamp contains today's text. Both counts are at most `total_simulacoes`. |
| `Admin.Contains` | app.py:186 | Python's `in` on text: a string contains each of its prefixes, and never a longer string. |
| `Admin.ContainsWindow` | app.py:186 | The substring test holds exactly when some window of the text, of the same length as today's date text, equals it. |
| `Admin.RegisteredOn` | app.py:185-186 | A row without `Data_Cadastro` counts for today only when today's text is empty. A row that counts for a non-empty day has a timestamp at least as long as that day's text. |
| `Admin.ContainsPrefix` | app.py:186 | A timestamp that starts with today's date contains today's text. |
| `Admin.AppendOne` | app.py:184-191 | One more row adds one to today's count exactly when it is from today. It adds one user exactly when its e-mail is non-empty and new. |
| `Admin.StatsAfterAppend` | app.py:178-191 | A lead saved today adds one to `cadastros_hoje`. It adds one to `total_usuarios` exactly when its e-mail is non-empty and not seen before. |

## Left out

- The tax arithmetic of `calcular` (app.py:107-127) is floating-point multiplication with Python's `round`. It is not modelled.
- `calcular` turns `faturamento` into a float before passing it to `salvar_cadastro` (app.py:95-104). The model takes every request field as the text written to the file.
- `calcular_livro_caixa_js` (app.py:57-88) only returns JavaScript source text that the server never evaluates.
- File I/O failures are not modelled. This covers `salvar_cadastro` returning False, `ler_cadastros` returning `[]` after an exception, and the error envelopes and HTTP status codes of the handlers.
- LeadStore.LeadFile.Append: its `ok` is always true, because the I/O failure that makes `salvar_cadastro` return False is not modelled.
- Admin.Login: returns the `success` flag only. The HTTP 401 status on failure is not modelled.
- CSV quoting, newline handling and UTF-8 encoding are not modelled. A record is its list of unquoted cells.
- A record shorter than the header gets `None` values in DictReader. The model leaves those columns absent instead. As a result, the model does not show `None` in the listing, a `TypeError` in the statistics, `''` instead of `'pendente'` for a short row's status in the rewrite, or the DictWriter failure that a short record causes under a header with a name outside the fixed seven (the model leaves that name absent, so it accepts the row and `LeadStore.Marked` can answer `Ok`).
- DictReader keeps the extra cells of a record longer than the header under the key `None`, and that makes the DictWriter rewrite raise. The model drops those cells.
- JSON values that are not strings (numbers, lists) in `email`, `status`, `usuario` or `senha` are not modelled. An absent value is modelled with `Option`.
- `datetime.now()` and its formatting are not modelled. The timestamp and today's `dd/mm/yyyy` text are parameters.
- The following are not modelled: Flask routing, CORS, JSON parsing, static-file and single-page-application serving (app.py:202-209), and process bootstrap (app.py:250-255).
- Concurrent requests, interleaved writes and a crash in the middle of a rewrite are not modelled.
