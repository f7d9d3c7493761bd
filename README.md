# Library catalogue bot: the store and its decision logic in Dafny

The bot keeps a library catalogue in one worksheet of an Excel workbook and
drives it from chat messages. This project models three parts of it.

- **The catalogue store** (`excel_store.py`). The worksheet is a header row
  plus data rows of cells (empty, integer, text or boolean). Header text
  resolves to canonical column names through a synonym table. The store
  validates the header, and then offers `add` with a positional id,
  `get_by_id`, the all-criteria substring search `find`, the tail listing
  `last`, `update_fields` with coercion, and `delete_and_compact`, which
  renumbers the rows.
  - Each public operation is a method of the `Store` class, whose `sheet`
    field it replaces.
  - Each method is proved equal to a specification function of the sheet
    before the call. `update_fields` is the exception: its new sheet is tied
    to the ghost relation `UpdateOutcome`, which `UpdateDeterministic`
    proves to admit exactly one outcome.
  - The loops of the source (header scan, id scans, search, renumbering,
    applying changes) are methods with loop invariants.
- **The decision logic of the chat front end** (`bot.py`):
  - reference resolution with its "exactly one match" policy;
  - the three shapes of an add payload, collapsed to one eleven-key record;
  - the review-date rule of an update, with the current date as a parameter;
  - the record formatter;
  - the rewrite of the `ALLOWED_CHAT_IDS` line of a `.env` file.
- **The settings reader** (`config.py`): the boolean and id-list parsers,
  and the defaulting and required-key rules of `get_settings`, as a
  function of an environment map.

Python's built-ins are written out in two modules:

- `Text`: `strip`, `lower`, `split`, `join`, `in` on text, and `int`/`str`
  on integers.
- `PyValues`: truthiness, `or`, `str()` and `int()` on cell values.

Errors the source raises become the `Err` side of a `Result`.

| file | module |
|---|---|
| outcomes.dfy | `Outcomes`: `Option`, `Result`, the error kinds |
| text.dfy | `Text`: Python text built-ins |
| pyvalues.dfy | `PyValues`: cell values and their Python conversions |
| sheets.dfy | `Sheets`: headers, header resolution, rows as records, the added row |
| excel_store.dfy | `ExcelStore`: specification functions, loop methods, the `Store` class |
| config.dfy | `Config`: `_parse_bool`, `_parse_int_set`, `get_settings` |
| bot.dfy | `Bot`: resolver, add payload, review date, `fmt_row` |
| env_file.dfy | `EnvFile`: the `.env` line rewrite of `bot.py` and its read-back by `get_settings`; a module of its own so that the proofs about `bot.py`'s other decisions stay small |

## Model

| member | source | states |
|---|---|---|
| Sheets.LookupSpec | telegram_excel_bot/excel_store.py:98 | A synonym lookup finds a value exactly when some entry has the key, and then returns the value of the first such entry. |
| Sheets.HeaderMapTargetsCanonical | telegram_excel_bot/excel_store.py:18-51 | Every synonym maps to one of the twelve canonical names. |
| Sheets.HeaderKeyCanonical | telegram_excel_bot/excel_store.py:97-100 | A header cell resolves, if at all, to a canonical name. |
| Sheets.HeadersDistinct | telegram_excel_bot/excel_store.py:10-14 | The twelve canonical names are pairwise distinct. |
| Sheets.CanonicalHeaderKey | telegram_excel_bot/excel_store.py:10-51 | Each canonical name, written as header text, resolves to itself. |
| Sheets.IndexOfKeysAt | telegram_excel_bot/excel_store.py:90-102 | A name is in the index iff some header cell resolves to it. It maps to the 1-based column of the last such cell, so a later duplicate wins. Empty and unknown cells add nothing. |
| Sheets.HeaderIndexInjectiveAll | telegram_excel_bot/excel_store.py:90-102 | Distinct names in a header index have distinct columns. |
| Sheets.MissingHeaders | telegram_excel_bot/excel_store.py:104-106 | Holds exactly the canonical names absent from the index. |
| Sheets.OpenIndex | telegram_excel_bot/excel_store.py:84-85 | When opening succeeds, the index is the resolved header index and holds every canonical name. |
| Sheets.OpenFailsIffMissing | telegram_excel_bot/excel_store.py:104-108 | Opening fails iff some canonical name is missing from the resolved index. The error then names exactly the missing names. |
| Sheets.OpenedIndexValid | telegram_excel_bot/excel_store.py:90-108 | The index of a sheet that opens is complete and injective. Its keys are canonical and its columns are at least 1. |
| Sheets.CanonicalSheetOpens | telegram_excel_bot/excel_store.py:67-72 | A sheet holding only the canonical header row opens, with the i-th canonical name at column i+1. |
| Sheets.RowToDict | telegram_excel_bot/excel_store.py:128-129 | A row read as a record has exactly the canonical names as keys. |
| Sheets.RowToDictAt | telegram_excel_bot/excel_store.py:128-129 | Each name of the record holds the cell at its column; a cell past the row's end is empty. |
| Sheets.Records | telegram_excel_bot/excel_store.py:203-204 | One record per data row, in table order. |
| Sheets.SetCell | telegram_excel_bot/excel_store.py:286-288 | Writing a cell sets that cell. Every other cell is kept, and the row grows only up to the written column. |
| Sheets.AddColumnsKnown | telegram_excel_bot/excel_store.py:150-158 | A validated index knows every column `add` writes. |
| Sheets.AddedRow | telegram_excel_bot/excel_store.py:150 | The appended row has twelve cells. |
| Sheets.AddedCellNamed | telegram_excel_bot/excel_store.py:150-158 | When names have distinct columns, the cell at a name's column is what `add` stores for that name. |
| Sheets.AddedRecord | telegram_excel_bot/excel_store.py:150-160 | The appended row reads back under each canonical name as follows. The id is the new id. Title, author, publisher and ISBN are the value or `""`. Year, column and row are the value or nothing. Every other name is `""`. |
| ExcelStore.Clamp | telegram_excel_bot/excel_store.py:182 | The result lies in [lo, hi]: x itself when inside, otherwise the nearer bound. |
| ExcelStore.FirstMatch | telegram_excel_bot/excel_store.py:174-177 | The index of the first data row whose id cell passes the test, with no passing row before it. When absent, no row passes. |
| ExcelStore.FirstMatchAt | telegram_excel_bot/excel_store.py:174-177 | A passing row with no passing row before it is the one found. |
| ExcelStore.HeaderIndex | telegram_excel_bot/excel_store.py:90-102 | The header scan loop builds exactly the resolved header index. |
| ExcelStore.Locate | telegram_excel_bot/excel_store.py:313-317 | The id scan loop stops at exactly the first row whose id cell matches. |
| ExcelStore.GetOutcome | telegram_excel_bot/excel_store.py:165-179 | For a truthy id on a sheet that opens, a record is returned iff some row's id cell matches. It is the record of the first such row, and its id is set and trims to the trimmed requested id. |
| ExcelStore.GetPositional | telegram_excel_bot/excel_store.py:174-177 | In a sheet with ids 1..n, looking up id j finds row j. |
| ExcelStore.Store.GetById | telegram_excel_bot/excel_store.py:165-179 | A falsy id gives no record without opening the sheet. Otherwise: the error of opening, or the first matching record, or none. |
| ExcelStore.LastResults | telegram_excel_bot/excel_store.py:224-232 | n is clamped to [1, 200]. The result is the final min(n, rows) records, in table order. |
| ExcelStore.RecordsFrom | telegram_excel_bot/excel_store.py:231-232 | The loop collects the records from the given sheet row to the end. |
| ExcelStore.Store.Last | telegram_excel_bot/excel_store.py:224-232 | Returns the tail listing of the current sheet; the sheet is not changed. |
| ExcelStore.CleanCriteria | telegram_excel_bot/excel_store.py:183 | Keeps exactly the criteria that are not blank after trimming, each trimmed and lower-cased. |
| ExcelStore.Matching | telegram_excel_bot/excel_store.py:202-218 | Every record kept comes from the table and meets every criterion. |
| ExcelStore.MatchingComplete | telegram_excel_bot/excel_store.py:202-218 | Every record of the table that meets every criterion is kept. |
| ExcelStore.MatchingAppend | telegram_excel_bot/excel_store.py:203-218 | Filtering is done row by row: the filter of a concatenation is the concatenation of the filters. |
| ExcelStore.MatchingUnknownKey | telegram_excel_bot/excel_store.py:207-211 | A criterion key with no searchable column makes every row fail. |
| ExcelStore.Take | telegram_excel_bot/excel_store.py:219-220 | A prefix of at most n elements; the whole sequence when it is no longer than n. |
| ExcelStore.FindResults | telegram_excel_bot/excel_store.py:181-222 | As many records as the smaller of the clamped limit and the number of matches. Each is a table record meeting every criterion, and together they are a prefix of all matches in table order. Fewer than the limit means every match. |
| ExcelStore.FindNoCriteria | telegram_excel_bot/excel_store.py:183-185 | When every criterion is blank, the result is empty, even on a sheet that does not open. |
| ExcelStore.FindUnknownKey | telegram_excel_bot/excel_store.py:207-211 | One non-blank criterion with an unknown key gives an empty result. |
| ExcelStore.CheckCriteria | telegram_excel_bot/excel_store.py:205-215 | The inner loop with its early exit decides exactly whether a record meets every criterion. |
| ExcelStore.Search | telegram_excel_bot/excel_store.py:202-222 | The row loop, with its break at the limit, returns the first `limit` matches in table order. |
| ExcelStore.Store.Find | telegram_excel_bot/excel_store.py:181-222 | Returns the specified search result; the sheet is not changed. |
| ExcelStore.AddAppends | telegram_excel_bot/excel_store.py:135-162 | A successful add keeps the header and every existing row, and appends exactly one row. It returns the row count plus one. The new row reads back as what `add` stores under each name. |
| ExcelStore.AddKeepsPositionalIds | telegram_excel_bot/excel_store.py:147-151 | Add keeps ids 1..n positional: the appended row gets n+1. |
| ExcelStore.CanonicalIndexFits | telegram_excel_bot/excel_store.py:150-151 | Under the canonical column order, every column `add` writes fits its twelve-cell row. |
| ExcelStore.AddToFreshSheet | telegram_excel_bot/excel_store.py:147-148 | Adding to a freshly created sheet succeeds and returns id 1. |
| ExcelStore.BuildAddRow | telegram_excel_bot/excel_store.py:150-158 | The cell-by-cell writes build exactly the specified row. |
| ExcelStore.Store.Add | telegram_excel_bot/excel_store.py:135-162 | On success the sheet becomes the specified sheet with one row appended, and the new id is returned. On failure it is left unchanged. |
| ExcelStore.FirstPresent | telegram_excel_bot/excel_store.py:279 | The first listed header the index knows. None only when it knows none of them. |
| ExcelStore.UpdateHeadersKnown | telegram_excel_bot/excel_store.py:241-253 | Only the eleven listed keys have header names. |
| ExcelStore.UpdateTargetCanonical | telegram_excel_bot/excel_store.py:241-283 | On a validated index, every listed key writes the column of its canonical name. |
| ExcelStore.UpdateHeadersOwner | telegram_excel_bot/excel_store.py:241-253 | No header name is listed under two keys. |
| ExcelStore.TargetsDistinct | telegram_excel_bot/excel_store.py:279-283 | Two different keys never write the same column. |
| ExcelStore.TargetsApart | telegram_excel_bot/excel_store.py:274-283 | The columns written by a set of changes are pairwise distinct and at least 1. |
| ExcelStore.Coerce | telegram_excel_bot/excel_store.py:285-288 | Year, column and row get `int(v)` or nothing; other keys get `str(v)` or `""`. Only text that is not an integer fails, and with ValueError. |
| ExcelStore.Targets | telegram_excel_bot/excel_store.py:274-283 | A change has a column exactly when its key is listed and one of its headers is in the index; that column is the one chosen. |
| ExcelStore.AppliedNone | telegram_excel_bot/excel_store.py:274 | Before any change, the row is as it was. |
| ExcelStore.AppliedSkip | telegram_excel_bot/excel_store.py:275-281 | A change with no column leaves the row alone. |
| ExcelStore.AppliedWrite | telegram_excel_bot/excel_store.py:283-288 | Writing one coerced change extends the set of applied changes by that key. |
| ExcelStore.AppliedUnique | telegram_excel_bot/excel_store.py:274-288 | The row after a set of changes does not depend on the order they were applied in. |
| ExcelStore.AppliedAll | telegram_excel_bot/excel_store.py:274-288 | When every change is applied, none of them fails to coerce. |
| ExcelStore.ApplyOne | telegram_excel_bot/excel_store.py:275-288 | One pass of the change loop. It fails only on a value that cannot be coerced; otherwise it extends the applied changes. |
| ExcelStore.ApplyChanges | telegram_excel_bot/excel_store.py:274-288 | Applying all changes fails, with ValueError, iff some change with a column cannot be coerced. Otherwise the row holds every change and every other cell is kept. |
| ExcelStore.UpdatedRecordWritten | telegram_excel_bot/excel_store.py:283-288 | After the update, the record reads each listed change, coerced, under its canonical name. |
| ExcelStore.UpdatedRecordKept | telegram_excel_bot/excel_store.py:274-288 | After the update, every canonical name no change is meant for keeps its value. |
| ExcelStore.UpdateDeterministic | telegram_excel_bot/excel_store.py:235-292 | The result and the sheet after update_fields are determined by the sheet, the id and the changes. |
| ExcelStore.Store.UpdateFields | telegram_excel_bot/excel_store.py:235-292 | Possible outcomes: the open error; `False` with nothing changed when no id matches; ValueError with nothing saved; or `True` with only the first matching row changed, as the changes dictate. |
| ExcelStore.Renumbered | telegram_excel_bot/excel_store.py:326-327 | Same number of rows, ids 1..n, and every other cell kept. |
| ExcelStore.Renumber | telegram_excel_bot/excel_store.py:326-327 | The renumbering loop gives exactly the renumbered rows. |
| ExcelStore.RemoveAndRenumber | telegram_excel_bot/excel_store.py:323-327 | Removing row k and renumbering leaves one row fewer, with ids 1..n-1. The rows before k and, shifted up, after k keep their other cells. |
| ExcelStore.DeleteFound | telegram_excel_bot/excel_store.py:299-320 | A row is deleted iff some id cell equals the id as an integer. Otherwise the sheet is unchanged. |
| ExcelStore.DeleteRemoves | telegram_excel_bot/excel_store.py:311-327 | Deletion removes the first matching row. The header is kept, the ids become 1..n-1, and the remaining rows keep their order and non-id cells. |
| ExcelStore.DeleteNonNumeric | telegram_excel_bot/excel_store.py:299-303 | An id that is not an integer matches no row: the result is `False` and the sheet is unchanged. |
| ExcelStore.DeletePositional | telegram_excel_bot/excel_store.py:313-317 | In a sheet with ids 1..n, deleting id j finds row j. |
| ExcelStore.Store.DeleteAndCompact | telegram_excel_bot/excel_store.py:294-330 | The sheet becomes the specified sheet, and the result says whether a row was removed. |
| ExcelStore.Store.Open | telegram_excel_bot/excel_store.py:84-86 | Returns the validated index of the sheet, or the schema error. |
| ExcelStore.Store.Create | telegram_excel_bot/excel_store.py:67-72 | A new workbook holds the named sheet with only the canonical header row. |
| ExcelStore.Store.Load | telegram_excel_bot/excel_store.py:74-80 | A workbook without the named sheet gets one with the canonical header row; otherwise the sheet is used as found. |
| Config.ParseBoolIgnoresCase | telegram_excel_bot/config.py:11 | `_parse_bool` ignores letter case. |
| Config.ParseBoolIgnoresPadding | telegram_excel_bot/config.py:11 | `_parse_bool` ignores surrounding white space. |
| Config.ParseBoolDefaultOnlyForNone | telegram_excel_bot/config.py:8-11 | The default decides only when there is no text. Any text is true iff its trimmed, lower-cased form is a true word. |
| Config.StripLower | telegram_excel_bot/config.py:11 | Trimming and lower-casing commute. |
| Config.IntSetOf | telegram_excel_bot/config.py:17-22 | The only failure is ValueError. |
| Config.IntSetOfOk | telegram_excel_bot/config.py:17-22 | The parse succeeds iff every part that is not blank reads as an integer. |
| Config.IntSetOfStep | telegram_excel_bot/config.py:18-21 | One more part adds its value when it is not blank. |
| Config.IntSetOfOnly | telegram_excel_bot/config.py:17-22 | Every value in the set comes from a non-blank part. |
| Config.IntSetOfAll | telegram_excel_bot/config.py:17-22 | The value of every non-blank part is in the set. |
| Config.IntSetOfMembers | telegram_excel_bot/config.py:17-22 | The set holds exactly the values of the non-blank parts. |
| Config.IntSetOfAppend | telegram_excel_bot/config.py:19-21 | A non-blank integer part adds its value. |
| Config.IntSetOfSkip | telegram_excel_bot/config.py:19-20 | A blank part adds nothing. |
| Config.IntSetOfPrefixFails | telegram_excel_bot/config.py:18-21 | Once a prefix of the parts fails, the whole parse fails. |
| Config.ParseIntSet | telegram_excel_bot/config.py:14-22 | The loop returns the empty set for no text or `""`; otherwise the parse of the comma-separated parts. |
| Config.GetEnv | telegram_excel_bot/config.py:39-58 | `os.getenv`: the value when set, otherwise the default. |
| Config.SettingsNeedToken | telegram_excel_bot/config.py:39-41 | A missing or blank bot token fails, naming the token, whatever else is set. |
| Config.SettingsNeedApiKey | telegram_excel_bot/config.py:43-51 | With a token and a chat id list that parses, a missing or blank API key makes loading fail naming the key. |
| Config.SettingsSecrets | telegram_excel_bot/config.py:39-51 | Loaded settings carry both secrets, trimmed and not empty. |
| Config.SettingsDefaults | telegram_excel_bot/config.py:43-58 | With only the secrets set, the other settings are the defaults: `./data/catalogo.xlsx`, `Catalogo`, no chats, auth on, `gpt-5.2-mini`, `.env`, no admin. |
| Config.SettingsAdmin | telegram_excel_bot/config.py:55-56 | A blank admin id gives no admin chat. Otherwise the admin chat is the `int()` of the trimmed text. |
| Bot.RefValue | telegram_excel_bot/bot.py:206-208 | A set `value` is the value used; the misplaced `id` is read only when `value` is missing. |
| Bot.ResolveStoreFree | telegram_excel_bot/bot.py:197-219 | Only the four search kinds look at the store; every other reference resolves the same whatever the sheet holds. |
| Bot.ResolveById | telegram_excel_bot/bot.py:205-219 | An id reference holding an integer, as `value` or else as `id`, resolves to it without checking that the book exists. |
| Bot.ResolveByIdNotInt | telegram_excel_bot/bot.py:218-219 | An id reference whose text is not an integer raises ValueError. |
| Bot.ResolveBlank | telegram_excel_bot/bot.py:201-215 | A blank kind, or a missing or blank value, resolves to nothing. |
| Bot.ResolveEditorial | telegram_excel_bot/bot.py:230-231 | Any other kind, `editorial` included, gives the pair `(None, [])`. |
| Bot.ResolveBySearch | telegram_excel_bot/bot.py:222-229 | A search kind with a text value runs a one-criterion search on the trimmed value, limited to 10. |
| Bot.MatchingOne | telegram_excel_bot/excel_store.py:202-218 | The filter holds one record iff exactly one record matches, and then it holds that record. |
| Bot.MatchingTwo | telegram_excel_bot/excel_store.py:202-218 | Two matching records make the filter hold at least two. |
| Bot.ResolveSearchUnique | telegram_excel_bot/bot.py:222-237 | A search reference names a book iff exactly one record matches and it has an id. The result is then that record's trimmed id text, and otherwise nothing. |
| Bot.ResolveSearchAmbiguous | telegram_excel_bot/bot.py:233-237 | Two matching records: the reference resolves to nothing. |
| Bot.TextOf | telegram_excel_bot/bot.py:391 | `str(v or "").strip()` is trimmed. |
| Bot.Normalise | telegram_excel_bot/bot.py:390-402 | Exactly the eleven internal keys. Text fields are trimmed text of the payload value; year, column and row are passed through. |
| Bot.NormaliseIdempotent | telegram_excel_bot/bot.py:390-402 | Normalising a normalised record changes nothing. |
| Bot.NormalisedShape | telegram_excel_bot/bot.py:380-402 | What reaches `add` has the eleven keys, trimmed text, and a title that is not blank. |
| Bot.NotUnderstoodIff | telegram_excel_bot/bot.py:338-382 | A payload is refused as not understood iff there is no `book` dict and `data` is a dict with neither `titulo` nor `Título`. |
| Bot.RootFieldsAsBook | telegram_excel_bot/bot.py:364-378 | Root fields give the same outcome as a `book` dict holding them. |
| Bot.HeadersOfTextRead | telegram_excel_bot/bot.py:348-361 | A display-header dict whose values are text or falsy is always read. |
| Bot.HeadersNonTextRaise | telegram_excel_bot/bot.py:348-361 | A set value under a text header that is not text raises AttributeError. |
| Bot.Digits2 | telegram_excel_bot/bot.py:558 | Two decimal digits. |
| Bot.FormatDate | telegram_excel_bot/bot.py:558 | `dd/mm/YYYY` has ten characters. |
| Bot.FormatDateRoundTrip | telegram_excel_bot/bot.py:558 | The date text has slashes at 2 and 5 and digits elsewhere, and reading the three numbers back gives the date. |
| Bot.NormaliseRevision | telegram_excel_bot/bot.py:544-561 | Without `f_revision` the changes are unchanged. Otherwise only that entry is replaced: `EMPTY` becomes `""`, a review mark becomes today's date, and anything else is kept. |
| Bot.ExplicitDateKept | telegram_excel_bot/bot.py:559-561 | A date already in `dd/mm/YYYY` form is kept as given. |
| Bot.ReviewedStaysToday | telegram_excel_bot/bot.py:556-561 | Applying the rule to its own result for a review mark changes nothing. |
| Bot.ReviewMarkIgnoresCase | telegram_excel_bot/bot.py:551-557 | Review marks are read regardless of case and surrounding white space. |
| Bot.FieldLines | telegram_excel_bot/bot.py:35-49 | At most one line per field. |
| Bot.FormatRow | telegram_excel_bot/bot.py:32-51 | The appending loop yields the id line, then the shown field lines, joined with line feeds. |
| Bot.FieldLinesPrefix | telegram_excel_bot/bot.py:35-49 | The lines of earlier fields come first. |
| Bot.FieldLineAt | telegram_excel_bot/bot.py:35-37 | A shown field has its `<b>label</b>: value` line, right after the lines of the shown fields before it. |
| Bot.FieldLinesOrdered | telegram_excel_bot/bot.py:39-49 | Shown fields appear in the fixed label order. |
| Bot.FieldLinesShown | telegram_excel_bot/bot.py:35-37 | Every field line belongs to a field that is not None, `""` or `"None"`. |
| Bot.FieldLinesNone | telegram_excel_bot/bot.py:36 | No shown field: no field lines. |
| Bot.FormatNewIdOnly | telegram_excel_bot/bot.py:407 | The fallback record `{"id": n}` prints as the id line alone. |
| Bot.FormatRowSplits | telegram_excel_bot/bot.py:51 | When no value holds a line feed, the text splits back into exactly its lines. |
| EnvFile.LeastExists | telegram_excel_bot/bot.py:84 | A non-empty set of ids has a least element. |
| EnvFile.SortedIds | telegram_excel_bot/bot.py:84 | `sorted()` of the ids: strictly increasing, with exactly the ids. |
| EnvFile.IdTexts | telegram_excel_bot/bot.py:84 | `str()` of each id, in order. |
| EnvFile.Kept | telegram_excel_bot/bot.py:90-95 | Every line in place, the key lines replaced. |
| EnvFile.RewrittenLines | telegram_excel_bot/bot.py:87-98 | Every line whose trimmed text starts with the key becomes the new key line; other lines are kept in order. The key line is appended iff none matched. |
| EnvFile.KeptStep | telegram_excel_bot/bot.py:90-95 | One pass of the loop appends the line's replacement and updates `found`. |
| EnvFile.RewriteEnv | telegram_excel_bot/bot.py:84-100 | The text written is the rewritten lines joined by line feeds, with a final line feed. |
| EnvFile.KeyLineIsKeyLine | telegram_excel_bot/bot.py:91 | The new line is itself a key line. |
| EnvFile.RewriteIdempotent | telegram_excel_bot/bot.py:87-98 | Rewriting twice with the same ids is rewriting once. |
| EnvFile.IntTextChars | telegram_excel_bot/bot.py:84 | An id is written as digits and maybe a minus sign. |
| EnvFile.IdTextsPlain | telegram_excel_bot/bot.py:84 | No written id is empty or holds a comma. |
| EnvFile.IdTextsSnoc | telegram_excel_bot/bot.py:84 | Writing one more id appends its text. |
| EnvFile.ReadIdTexts | telegram_excel_bot/config.py:17-22 | Parsing the written ids gives back exactly the set of ids. |
| EnvFile.IdTextEnds | telegram_excel_bot/bot.py:84 | A written id starts and ends with a character that is not white space. |
| EnvFile.IdsValueTrimmed | telegram_excel_bot/bot.py:84 | The value written has no white space at either end. |
| EnvFile.IdsValueReadBack | telegram_excel_bot/config.py:46 | `get_settings` reads the written value back as the same set of chat ids. |

## Behaviour kept as written

- `add` returns an integer id (the data-row count plus one), although it is
  annotated as returning text.
- `add` writes only id, title, author, publisher, year, column, row and
  ISBN. Provenance, category, review date and comments are written as `""`.
- An unknown reference kind makes the resolver return the pair
  `(None, [])`, modelled as its own outcome `NoneAndEmpty`.
- Three keys of the header synonym map (`F.revision`, `F_Revisión`,
  `F.Revisión`) contain capitals. Header text is lower-cased before the
  lookup, so those entries can never match. They are kept.
- `_open` adds the canonical header row to an existing sheet whose
  `max_row` is below 1. openpyxl reports `max_row` as at least 1 even for an
  empty sheet, so that branch never runs. An empty existing sheet fails
  header validation instead. The model follows the code and the library,
  not a reading where empty sheets are initialised.

## Left out

- File locking and workbook I/O (`FileLock`, `load_workbook`, `save`,
  `Workbook()`). Each store operation is one atomic transition of the
  in-memory sheet; concurrent writers and save failures are not modelled.
- `_next_id` (excel_store.py:114-126) is never called and is not part of this model.
- The Telegram handlers and transport (`start`, `help_cmd`, `export_cmd`,
  `authorize`, `handle_text`, `handle_audio`, `main`, `error_handler`,
  replies): network I/O and async plumbing.
- The second `get` branch of `process_natural_language`, which is
  unreachable because the first one always returns.
- The `set_pos` and `set_isbn` dispatch. It calls store methods that do not
  exist, so its only behaviour is the exception the handler catches.
- `llm_transformer.py`, `speech2text.py` and `zenobot.py`: calls to
  external services and process bootstrap.
- `datetime.now()` becomes the `today` parameter. `os.getenv`/`load_dotenv`
  become an environment map.
- The `.env` file is given as its lines and its new text is returned.
  Reading it (`splitlines`), the missing-file error and writing it are not
  modelled.
- Cell and payload values are empty, integers, text or booleans. Floats,
  dates and nested dicts are not modelled, nor are `str()` and `int()` on
  them.
- Python built-ins are modelled only as far as needed:
  - `lower()` covers ASCII and Latin-1 letters;
  - `strip()` uses Python's white-space set;
  - `int()` accepts an optional sign and ASCII digits, with no underscores
    and no other Unicode digits.
- Bot.FromHeaders: only when it raises is proved (`HeadersOfTextRead`,
  `HeadersNonTextRaise`). That its result agrees field by field with
  normalising the same dict under internal keys is not proved.
- ExcelStore.AddSpec: the source writes the row cell by cell and raises
  IndexError at the first canonical column beyond twelve. The model checks
  all columns up front. Both outcomes match, because nothing is saved
  before the raise.
- ExcelStore.UpdateOutcome: the target column of every change is computed
  before the loop. The source looks each one up inside the loop, over the
  same unchanging index. A coercion error part-way leaves the saved sheet
  unchanged, because the save comes after the loop.
