# DODF call-for-applications scraper, modelled in Dafny

The system watches the *Diário Oficial do Distrito Federal* (DODF) for
"edital de chamamento", a call for applications. Its two versions share one pipeline:

- **The cloud version** (`app/ExtratorDados.py`, function `diario_oficial_df`):
  - It reads from cell H1 of a Google sheet the edition it tried last. A missing or malformed value falls back to 53.
  - It rolls a Saturday or Sunday back to the Friday and builds the percent-encoded link of the next edition.
  - It scans that PDF's pages for the phrase and stops at the first page that has it.
  - It stores the edition it tried in H1, whatever the outcome.
  - It writes the record it found as a header row plus one row per line of the excerpt, and returns a status string.
- **The earlier script** (the root `ExtratorDados.py`):
  - It applies the same weekend roll-back, then tries editions 27, 28, … in turn.
  - Its link has spaces written by hand as `%20`.
  - It keeps every page of each edition that mentions the phrase.
  - It stops at the first edition whose fetch, parse or page extraction raises.

The model has one module per concern:

- `Wrappers`: `Option`.
- `Decimal`:
  - `str(n)` and `int(s)` on decimal digits.
  - Zero padding, i.e. `f"{n:03d}"` and `f"{d:02d}"`.
  - Leading zeros.
- `Strings`:
  - ASCII `lower()`.
  - `in` and `find`.
  - Python's clamped slice `s[lo:hi]`.
  - `split("\n")` and `"\n".join`.
- `Calendar`:
  - Python's proleptic Gregorian ordinal, with `weekday() == (ordinal + 6) % 7`.
  - The day before a date.
  - The weekend roll-back.
- `Percent`:
  - UTF-8.
  - `urllib.parse.quote` with its default `safe='/'`: letters, digits, `_.-~/` pass, and every other byte becomes upper-case `%XX`.
  - Percent-decoding.
- `Locator`:
  - The month table and the edition and date formats.
  - The folder and file tags.
  - The cloud link and the script's hand-built link.
- `Scanner`:
  - Pages and fetch outcomes.
  - The phrase test and the excerpt.
  - The first-hit scan of the cloud version and the every-hit scan of the script, with the spec functions they are proved against.
- `Cursor`: loading and storing the H1 cursor.
- `Sheet`: the cell writes of `salvar_no_google_sheets`.
- `App`: one run of `diario_oficial_df`.
- `Script`: the module-level loop of the earlier script.

The loops become Dafny methods (`Scanner.ScanFirst`, `Scanner.ScanAll`, `Sheet.SaveRecord`, `App.SaveAll`, `Script.TryEditions`), each proved against a recursive or closed-form specification function. Lemmas then prove what the source promises about those functions.

The following are inputs to the model rather than things it computes:

- The outside world:
  - Whether the sheet opens, and what reading H1 gives.
  - Today's date.
  - What fetching an edition gives: an HTTP error code, another failure, or the document's pages.
  - How many rows the sheet already uses.
- For each page, the text the PDF reader extracts (possibly `None`) or the fact that extraction raises.
- For the script, a finite sequence `published`: element `j` is what fetching edition `27 + j` gives. Every edition past its end answers 404, as the real server eventually does. This is what makes the script's `while True` loop terminate in the model.

## Model

| member | source | states |
|---|---|---|
| Decimal.ZeroPad | app/ExtratorDados.py:134 | `f"{n:0wd}"`: `max(w, len(str(n)))` characters, all digits, the decimal form of `n` preceded only by zeros, and it reads back as `n` |
| Decimal.ValueOfDecimal | app/ExtratorDados.py:29 | `int(str(n)) == n`: the decimal form of `n` reads back as `n` |
| Decimal.CanonicalForm | app/ExtratorDados.py:16-17 | every non-empty digit string is some leading zeros followed by the decimal form of the number it spells |
| Cursor.Load | app/ExtratorDados.py:12-23 | a non-empty all-digit cell gives the number it spells (leading zeros aside); an empty cell, `None`, a non-digit value or a read error gives 53; the result is never negative |
| Cursor.Store | app/ExtratorDados.py:26-29 | the text written to H1 is a non-empty string of decimal digits |
| Cursor.LoadStore | app/ExtratorDados.py:12-29 | loading the value stored for edition `n` gives `n` back, so the next run resumes after it |
| Calendar.PrevDay | app/ExtratorDados.py:113 | `d - timedelta(days=1)` is a valid date whose ordinal is one less |
| Calendar.Weekday | app/ExtratorDados.py:112 | `weekday()`: `(ordinal + 6) % 7`, so Monday is 0 and Sunday 6, as `datetime` numbers them; the result is always one of those seven; used by Calendar.AdjustWeekend, whose contract states the roll-back over it |
| Calendar.AdjustWeekend | app/ExtratorDados.py:111-115 | Saturday moves back one day, Sunday two, any other day is unchanged; the result is always Monday to Friday and at most two days before |
| Calendar.WeekdayBack | ExtratorDados.py:19-22 | stepping back one day from a Saturday or two days from a Sunday lands on a Friday |
| Strings.Lower | app/ExtratorDados.py:158-159 | `lower()` keeps the length and maps each character on its own, so an index found in the lowered text is valid in the original |
| Strings.LowerSlice | app/ExtratorDados.py:159-160 | lowering a slice gives the same slice of the lowered text |
| Strings.Find | app/ExtratorDados.py:159 | `find` gives the first occurrence when there is one, and -1 otherwise |
| Strings.Slice | app/ExtratorDados.py:160 | Python's `s[lo:hi]`: the characters from `lo` up to `min(hi, len(s))`, or empty when `lo` is past the end or `hi < lo` |
| Strings.Split | app/ExtratorDados.py:52 | `texto.split("\n")`: never empty, and no piece holds a line break; Strings.JoinSplit shows no character is lost |
| Strings.Join | app/ExtratorDados.py:52 | `"\n".join(lines)`, the inverse of Strings.Split (Strings.JoinSplit, Strings.SplitJoin) |
| Strings.JoinSplit | app/ExtratorDados.py:52 | joining `s.split("\n")` with line breaks gives `s` back |
| Strings.SplitJoin | app/ExtratorDados.py:52 | splitting the join of break-free lines gives the lines back |
| Percent.Quote | app/ExtratorDados.py:140-141 | `quote(s)` with `safe='/'`, character by character: unreserved characters and `/` stay, every other character becomes the `%XX` triples of its UTF-8 bytes, so the result is never shorter than the input; its meaning is proved in Percent.QuoteIsBytewise, Percent.UnquoteQuote and Percent.QuoteEncoded |
| Percent.Utf8 | app/ExtratorDados.py:140-141 | one to four bytes per character; ASCII characters are one byte, and every byte of a non-ASCII character is at least 0x80 |
| Percent.QuoteIsBytewise | app/ExtratorDados.py:140-141 | quoting character by character equals quoting the UTF-8 bytes of the whole string |
| Percent.QuoteAppend | app/ExtratorDados.py:140-141 | quoting distributes over concatenation |
| Percent.QuoteOfSafe | app/ExtratorDados.py:140-141 | a string made only of letters, digits and `_.-~/` is left unchanged |
| Percent.QuoteSpace | app/ExtratorDados.py:140-141 | a space becomes `%20` |
| Percent.QuotePipe | app/ExtratorDados.py:140 | `\|` becomes `%7C` |
| Percent.UnquoteQuote | app/ExtratorDados.py:140-141 | percent-decoding the quoted string gives exactly the UTF-8 bytes of the original |
| Percent.UnquoteQuoteBytes | app/ExtratorDados.py:140-141 | percent-decoding the quoted bytes gives those bytes back |
| Percent.QuoteEncoded | app/ExtratorDados.py:140-141 | the quoted string contains only letters, digits, `_.-~/` and `%` followed by two hex digits |
| Locator.MonthFolder | app/ExtratorDados.py:102-106 | `meses[mes - 1]` starts with the two-digit month and `_`, and contains no space and no `\|` |
| Locator.EditionTag | app/ExtratorDados.py:133-134 | `f"{n:03d}"` has at least three digits, exactly three below 1000, reads back as `n`, and is `str(n)` from 100 on |
| Locator.FormatDate | app/ExtratorDados.py:136-137 | `DD-MM-YYYY`: two digits reading as the day, a dash, two digits reading as the month, a dash, then `str(year)` |
| Locator.FolderTag | app/ExtratorDados.py:140 | the folder tag `{ano}\|{mes_pasta}\|DODF {edicao} {data}\|` before encoding; Locator.FolderTagEncoding gives its encoded form |
| Locator.FileTag | app/ExtratorDados.py:141 | the file tag `DODF {edicao} {data} INTEGRA.pdf` before encoding; Locator.FileTagEncoding gives its encoded form |
| Locator.AppLink | app/ExtratorDados.py:142 | the cloud link: the base address, `?pasta=` and the quoted folder tag, `&arquivo=` and the quoted file tag; App.Run states that the run builds it for the adjusted date and edition |
| Locator.ScriptLink | ExtratorDados.py:50 | the script's link written out as line 50 does; Locator.ScriptLinkEncodesOnlySpaces shows it is the two raw tags with only their spaces encoded |
| Locator.FolderTagEncoding | app/ExtratorDados.py:140 | the encoded folder tag is the year, `%7C`, the encoded month folder, `%7CDODF%20`, the edition, `%20`, the date and `%7C` |
| Locator.FileTagEncoding | app/ExtratorDados.py:141 | the encoded file tag is the file tag with its three spaces written as `%20` and nothing else changed |
| Locator.MonthFolderEncoding | app/ExtratorDados.py:102-106 | of the twelve month folders only March changes under encoding, to `03_Mar%C3%A7o` |
| Locator.EncodeSpacesOfSpaceFree | ExtratorDados.py:50 | a text without spaces is not changed by the hand-written space encoding |
| Locator.ScriptLinkEncodesOnlySpaces | ExtratorDados.py:44-50 | the script's link is the two tags with only their spaces written as `%20`: the pipes and the month name (including the `ç` of March) stay unencoded, and the edition is the three-digit form |
| Scanner.Mentions | app/ExtratorDados.py:158 | `texto_pagina and "edital de chamamento" in texto_pagina.lower()`: a non-empty extracted text whose lowered form contains the phrase (the same test as the script's line 63) |
| Scanner.PhraseHasAnchor | app/ExtratorDados.py:158-159 | every occurrence of "edital de chamamento" is an occurrence of "edital" |
| Scanner.ExcerptStart | app/ExtratorDados.py:159 | `texto_pagina.lower().find("edital")`; Scanner.ExcerptStartMeaning states what it is on a mentioning text |
| Scanner.Excerpt | app/ExtratorDados.py:160 | `texto_pagina[pos:pos + 1000]`; Scanner.ExcerptMeaning states its bounds and content |
| Scanner.ExcerptStartMeaning | app/ExtratorDados.py:159 | `pos` is the first "edital" of the lowered text, and it is no later than the first "edital de chamamento" |
| Scanner.ExcerptMeaning | app/ExtratorDados.py:159-160 | the excerpt is the original text from `pos` on, `min(1000, len - pos)` characters long, no longer than 1000, and its lowered form starts with "edital" |
| Scanner.FirstMention | app/ExtratorDados.py:156-173 | the cloud version's page loop as a recursive function: a failing page raises, the first hit gives its record and ends the loop, otherwise the scan goes on; proved equal to Scanner.ScanFirst, with its meaning in Scanner.FirstMentionHit, Scanner.FirstMentionRaises and Scanner.FirstMentionNone |
| Scanner.ScanFirst | app/ExtratorDados.py:154-173 | the page loop with its `break` computes the first-hit scan, and it reports a find exactly when it appended a record |
| Scanner.FirstMentionHit | app/ExtratorDados.py:156-173 | at most one record; when there is one, it is the first page (numbered from 1) whose text is non-empty and mentions the phrase, with every page before it extracted and without a mention |
| Scanner.FirstMentionRaises | app/ExtratorDados.py:156-184 | the cloud scan ends in an exception exactly when a page's extraction fails before any hit |
| Scanner.FirstMentionNone | app/ExtratorDados.py:175-176 | the cloud scan neither finds nor raises exactly when every page is extracted and none mentions the phrase |
| Scanner.AllMentions | ExtratorDados.py:61-76 | the script's page loop as a recursive function: a failing page raises and keeps what came before, and every hit adds its record; proved equal to Scanner.ScanAll, with its meaning in the AllMentions lemmas |
| Scanner.ScanAll | ExtratorDados.py:61-76 | the script's page loop computes the every-hit scan |
| Scanner.AllMentionsSound | ExtratorDados.py:61-76 | every record of the script's scan is a hit on its own page, numbered from 1, with the excerpt of that page |
| Scanner.AllMentionsComplete | ExtratorDados.py:61-76 | every hit before the first failing page is recorded: no early exit |
| Scanner.AllMentionsRaises | ExtratorDados.py:61-80 | the script's scan raises exactly when some page's extraction fails |
| Scanner.AllMentionsOrdered | ExtratorDados.py:61-76 | the script's records come in strictly increasing page order, so each page contributes at most once |
| Scanner.AllMentionsPagesAfter | ExtratorDados.py:61 | the records of a scan begun at page index `from` carry page numbers above `from` |
| Scanner.FirstIsHeadOfAll | app/ExtratorDados.py:156-173 | the cloud scan keeps the first record of the every-hit scan, and raises exactly when that scan raises before finding anything |
| Sheet.LineValues | app/ExtratorDados.py:57-62 | columns A to D of line `i`: date, edition, page and the line on line 0, then three empty cells and the line |
| Sheet.RecordRows | app/ExtratorDados.py:45-65 | the writes for one record: one write more than the text has lines: the header at row `used + 1`, then line `i` at row `used + 2 + i`; its layout is stated in Sheet.RecordRowsLayout |
| Sheet.SaveRecord | app/ExtratorDados.py:45-65 | the loop of `salvar_no_google_sheets` writes the header row and then one row per line of the excerpt |
| Sheet.RecordRowsLayout | app/ExtratorDados.py:45-65 | the header goes at row `used + 1` and line `i` at row `used + 2 + i`; columns A–C hold date, edition and page on the first line only and are empty after it; joining column D with line breaks rebuilds the excerpt exactly |
| App.TryEdition | app/ExtratorDados.py:146-184 | the fetch-and-scan `try`: at most one record; 404, other HTTP errors, other exceptions, a find and no mention are told apart; there is a record exactly when the outcome is a find |
| App.SaveAll | app/ExtratorDados.py:186-191 | the cursor is written first, then the rows of the record found, if any; every write after the first is a row |
| App.Process | app/ExtratorDados.py:146-200 | after the link is built: the cursor is written exactly once, first, whatever the fetch gives, and reads back as the edition tried; the rows are those of the single record found; the status is the success message exactly when a record was found, and "Nenhuma edição encontrada." otherwise; the outcome names the branch taken |
| App.Run | app/ExtratorDados.py:87-204 | a sheet-access failure gives `"Erro na execução: "` plus the message and no writes. Otherwise: the edition tried is the loaded cursor plus one; the link is built from the weekend-adjusted date; the cursor is written exactly once, first, whatever the fetch gives, and reads back as that edition; the rows are those of the single record found; the status is the success message exactly when a record was found, and "Nenhuma edição encontrada." otherwise |
| Script.StopIndex | ExtratorDados.py:40-82 | the first edition from 27 on whose fetch, parse or extraction raises; every edition before it is processed completely |
| Script.Attempt | ExtratorDados.py:54-80 | one pass of the loop body: what it appends, and it stops exactly when the edition does not complete |
| Script.Collected | ExtratorDados.py:40-80 | the records the script collects from edition index `j` on: each fetched edition's every-hit scan, going on to the next edition only when that scan did not raise; proved equal to the loop's result in Script.TryEditions |
| Script.CollectedSound | ExtratorDados.py:40-80 | every collected record comes from an edition between 27 and the stopping one, is a hit on its own page, and carries the date fixed before the loop |
| Script.CollectedComplete | ExtratorDados.py:40-80 | every hit of a completed edition is collected, and so is every hit of the stopping edition before its first failing page: records appended before the exception stay |
| Script.CollectedOrdered | ExtratorDados.py:40-80 | records come in edition order, and by strictly increasing page within an edition |
| Script.TryEditions | ExtratorDados.py:30-82 | the `while True` loop makes one pass per edition from 27 on, pass `j` building the link of edition `27 + j`; it stops after the first edition that raises and tries none after it, and it collects exactly the specified records |
| Script.PerEditionAt | ExtratorDados.py:40-50 | the value built on pass `j` of the loop belongs to edition `27 + j` |
| Script.RunScript | ExtratorDados.py:16-82 | after the weekend roll-back, pass `j` fetches edition `27 + j` by its hand-built link for the adjusted date; there is one pass per edition up to and including the one that raises; the records are those the script collects for that date |

## Left out

- HTTP, PDF parsing, Google Sheets and credentials: `urllib`, `PyPDF2`, `gspread`, `get_google_credentials`, environment and file lookups are external I/O. Their results are inputs, and the sheet is modelled only as the sequence of cell writes.
- `print` logging is not modelled: it has no effect on the computed state.
- The CSV file and its read-back with pandas at `ExtratorDados.py:85-96` are file I/O and are not modelled.
- `datetime.today()` is a parameter.
- A write to the sheet that raises is not modelled. `salvar_ultima_edicao` and `salvar_no_google_sheets` each catch their own exception and carry on: the model shows every write as done.
- `sheet.get_all_values()` is the parameter `used`, read once per record. A run writes at most one record, so this is the same as reading it before each record.
- Edition and page are written to columns B and C as decimal strings. gspread sends them as numbers, which displays the same.
- `str.lower` and `str.isdigit` are modelled on ASCII. Unicode case mappings that change length, and non-ASCII digits, are outside the model.
- Two runs that overlap can lose an update to H1. That is a concurrency concern and is not modelled.
- Script.RunScript: the script's loop has no bound of its own. The model bounds it by the finite sequence of published editions, answering 404 past its end.
- Fetch outcomes do not depend on the text of the link. The model's fetch input is chosen freely. In March the script's hand-built link keeps a raw `ç` (Locator.MonthFolderEncoding), and an HTTP client that sends the request line as ASCII would raise on it before any request is made. That would end the script's loop at edition 27 with no records. The model does not capture this, because nothing of the HTTP client is modelled.
- App.Run: `status` for an access failure is the prefix plus the exception's message taken as a given string. How Python formats an exception is not modelled.

## Behaviour worth knowing

- The excerpt is `text[pos:pos + 1000]`, where `pos` is the first "edital" of the lowered text. It is not centred on the match, and nothing is stripped from it.
- The phrase is matched on the lowered text exactly as extracted. Line breaks are not collapsed before matching.
- The cloud version stops at the first page that mentions the phrase.
- In both versions, a page whose extraction raises ends the whole edition: the exception reaches the edition's `except`. The page is not skipped.
- A document the PDF reader rejects raises, is logged, and leaves no records.
- `salvar_no_google_sheets` writes a header row before the lines of each record. With at most one record per run, that is one header per run.
