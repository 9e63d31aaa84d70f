# insidertrading: the Form 3/4/5 ingestion and the insider store, in Dafny

This project models the core of `dfwcnj/insidertrading`, which has two parts.

- **`EDGARInsiderTrading` (`insidertrading.py`).** This class reads three members of a quarterly SEC EDGAR Form 3/4/5 archive:
  - `NONDERIV_TRANS.tsv`: `form345largesttrades` normalises each transaction row into a record, groups the records by dollar amount (shares × price), keeps the buckets of the 100 largest amounts in `transtop`, and indexes their records by accession number in `bigtransdict`.
  - `SUBMISSION.tsv`: `form345submissions` copies column 11 into the matching records' `ISSUERTRADINGSYMBOL`.
  - `REPORTINGOWNER.tsv`: `form345names` stores owner fields for matching rows.

  The class also names the current data set (`genform345name`) and fetches URLs with a bounded, doubling retry loop (`query`).
- **`InsiderDB` (`db.py`).** This is a SQLite store of those records:
  - a create-if-not-exists schema with a unique index on `ACCESSION_NUMBER`;
  - insert-or-ignore;
  - two date-window selections;
  - a quoted text report.

Modules (one file each):

| file | module | what it holds |
|---|---|---|
| `base.dfy` | `Base` | `Option`, `Result`, and the exceptions as a `Failure` datatype |
| `text.dfy` | `Text` | splitting, joining, zero-padded decimals, and SQLite's text ordering |
| `dates.dfy` | `IsoDates` | proleptic Gregorian dates as Python's `datetime.date` handles them: the ordinal, adding days, and the ISO format |
| `form345.dfy` | `Form345` | what the three ingestion loops compute, stated on values: row screening, record building, bucketing, the top-100 order, and the two joins |
| `edgar.dfy` | `EdgarInsider` | the `EDGARInsiderTrading` class itself |
| `retry.dfy` | `Retry` | the retry policy of `query` |
| `store.dfy` | `InsiderStore` | the database, and the `InsiderDB` class over it |

How the model is built:

- **Records in `edgar.dfy`.** The ingestion loops keep their imperative form. A record (the Python `th` dict) is a heap object, `Record`. This makes the aliasing between `transtop` and `bigtransdict` real: the records that `form345submissions` updates through `bigtransdict` are the same ones `transtop` holds.
- **Methods and folds.** Each method is proved against a fold:
  - `Collect` for the bucketing loop (`form345.dfy`);
  - `Largest` for the top 100 (`edgar.dfy`);
  - `IndexRecords` for the accession index (`edgar.dfy`);
  - `JoinSubmissions` and `JoinNames` for the joins (`form345.dfy`).

  The lemmas about those folds carry the properties.
- **Exceptions.** A Python exception becomes a `Failure` value. A method that raises part-way reports the state it had reached.

The model follows the code as written, including its quirks:

- **Month table.** The month table (`mton`) maps every month code to `"01"`, so `D-MON-Y` becomes `Y-01-D`. A date that is already ISO fails the lookup with a `KeyError`. The comment at `insidertrading.py:226` names the intended result `YYYY-MM-DD`. The code does produce text of that shape, but its month is always `01`.
- **Title filter.** The pattern `(Common|Shares|Stock*)*` matches the empty prefix of every string, so it admits every title. A record without `SECURITY_TITLE` raises `KeyError`.
- **`form345names`.** It writes `RPTOWNERCIK` and `RPTOWNERNAME` as top-level keys of `bigtransdict`, not into any record, although its docstring (`insidertrading.py:264`) speaks of matching the owner to a transaction.
- **No escaping.** Quotes are not escaped anywhere: not in the SQL text, and not in the report.
- **Retries.** Every `URLError`, HTTP errors included, is retried. Any other exception from `Request` or `urlopen` escapes at once, with no retry and no exit.

## Model

| member | source | states |
|---|---|---|
| Form345.Cells | src/insidertrading/insidertrading.py:197 | splitting a line at tabs always yields at least one cell, so column 0 always exists |
| Form345.LastIndex | src/insidertrading/insidertrading.py:200-203 | the remembered index of a column is its last occurrence in the header, or 0 when the header lacks it |
| EdgarInsider.ScanHeader | src/insidertrading/insidertrading.py:198-204 | the header loop computes the layout: the last positions of TRANS_SHARES and TRANS_PRICEPERSHARE |
| Form345.ScreenRow | src/insidertrading/insidertrading.py:205-209 | a data row is skipped exactly when it has fewer than priceAt+1 cells or an empty shares or price field; it yields an amount exactly when both fields exist, are non-empty and parse, and the amount is their product; otherwise it raises IndexError (shares column past the row's end) or ValueError (a field `float()` rejects) |
| EdgarInsider.Screen | src/insidertrading/insidertrading.py:205-209 | the in-place screening of one row agrees with ScreenRow |
| Form345.ClassifyRow | src/insidertrading/insidertrading.py:205-230 | a row is skipped exactly when screening skips it, dropped for a zero amount exactly when its amount is 0.0, and kept exactly when it has a non-zero amount and a record with SECURITY_TITLE, under that amount and that record; a screening exception is raised as it is; no row is filtered out |
| Form345.ClassifyAmount | src/insidertrading/insidertrading.py:209-230 | a zero amount, and only a zero amount, is dropped; a non-zero amount is kept with the row's record exactly when the record builds and has SECURITY_TITLE, and fails exactly otherwise |
| Form345.ClassifyRecord | src/insidertrading/insidertrading.py:228-230 | a record with SECURITY_TITLE is kept under the amount; one without raises KeyError('SECURITY_TITLE'); a record that failed to build passes its exception on |
| Form345.KeptRowShape | src/insidertrading/insidertrading.py:205-230 | a kept row reaches both amount columns, both are non-empty and parse, the amount is their product, and the record is BuildFields of the row |
| Form345.KeptRowExactly | src/insidertrading/insidertrading.py:205-230 | the converse too: a row is kept exactly when both amount fields exist, are non-empty and parse, their product is non-zero, and its record builds with SECURITY_TITLE |
| Form345.KeptAmountFromRecord | src/insidertrading/insidertrading.py:201-208 | the record of a kept row holds the shares and price texts whose product is its bucket's amount |
| Form345.ConvertTransDateShape | src/insidertrading/insidertrading.py:214-227 | TRANS_DATE converts exactly when it has at least three dash-separated parts whose second is a month code; the result is part 2, "-01-", part 0 |
| Form345.ConvertedMonthIsJanuary | src/insidertrading/insidertrading.py:214-227 | every D-MON-Y date becomes Y-01-D, whatever the month |
| Form345.IsoDateRejected | src/insidertrading/insidertrading.py:214-227 | an already-ISO date raises KeyError on its month digits |
| EdgarInsider.BuildRecordFields | src/insidertrading/insidertrading.py:219-227 | the in-place record loop agrees with BuildFields, including its IndexError and KeyError |
| Form345.BuildFieldsContents | src/insidertrading/insidertrading.py:219-227 | a record holds exactly the header names with a non-empty value; each maps to the value of its last such column, and TRANS_DATE is converted |
| Form345.FieldStepContents | src/insidertrading/insidertrading.py:220-227 | one pass of the column loop keeps that description true with one more column |
| Form345.BuildFieldsNonEmpty | src/insidertrading/insidertrading.py:221-223 | no record holds an empty value |
| Form345.KeptFieldsNonEmpty | src/insidertrading/insidertrading.py:221-230 | no kept record holds an empty value |
| Form345.TitleAlwaysMatches | src/insidertrading/insidertrading.py:228 | the title pattern matches every string |
| Form345.NeverFiltered | src/insidertrading/insidertrading.py:228-229 | no row is ever dropped by the title filter |
| Form345.CollectRowsMembers | src/insidertrading/insidertrading.py:195-230 | a record is in bucket a exactly when some data row so far was kept with amount a and that record |
| Form345.CollectRowsBuckets | src/insidertrading/insidertrading.py:208-212 | there is no bucket for amount zero, and every bucket holds a record |
| Form345.CollectFacts | src/insidertrading/insidertrading.py:189-230 | the whole `prtransdict`: no zero key, no empty bucket, and membership is exactly the kept rows of the data lines after the header |
| EdgarInsider.AddOutcomeNewBucket | src/insidertrading/insidertrading.py:211-212 | creating an empty bucket before the record is appended does not change the resulting buckets |
| EdgarInsider.AppendRecord | src/insidertrading/insidertrading.py:230 | appending a fresh record adds its fields to the end of its bucket and changes no other bucket |
| EdgarInsider.AddRecord | src/insidertrading/insidertrading.py:228-230 | the title check and the append change the buckets as ClassifyRecord says |
| EdgarInsider.BucketRow | src/insidertrading/insidertrading.py:209-230 | one row with its amount known changes the buckets as ClassifyAmount says |
| EdgarInsider.CollectRow | src/insidertrading/insidertrading.py:205-230 | one data row changes the buckets as ClassifyRow says, or raises its exception |
| EdgarInsider.CollectBuckets | src/insidertrading/insidertrading.py:189-230 | the row loop builds the buckets Collect describes, of fresh records, or stops with Collect's exception |
| Form345.MaxOf | src/insidertrading/insidertrading.py:231 | the largest amount is an amount and bounds all others |
| Form345.SortedDesc | src/insidertrading/insidertrading.py:231 | `sorted(keys, reverse=True)` is strictly descending and holds exactly the keys |
| Form345.DescendingPairs | src/insidertrading/insidertrading.py:231 | in the sorted keys an earlier amount is larger than any later one |
| Form345.TopAmountsAreLargest | src/insidertrading/insidertrading.py:231-233 | every amount outside the first 100 is smaller than each of the 100 kept |
| EdgarInsider.Largest | src/insidertrading/insidertrading.py:231-233 | there are min(100, number of amounts) buckets, each the bucket of the amount at its rank |
| EdgarInsider.Appended | src/insidertrading/insidertrading.py:232-233 | the append loop builds Largest of the buckets |
| EdgarInsider.LargestView | src/insidertrading/insidertrading.py:231-233 | the fields of the top buckets are the top buckets of the fields |
| EdgarInsider.IndexRecordsEffect | src/insidertrading/insidertrading.py:235-238 | after indexing, a key maps to the last record carrying that accession number, or keeps its old entry; every record had one |
| EdgarInsider.IndexRecordsKeyed | src/insidertrading/insidertrading.py:235-238 | every record in the index sits under its own accession number |
| EdgarInsider.IndexRecordsHolds | src/insidertrading/insidertrading.py:235-238 | the index holds only records it held before or records of transtop |
| EdgarInsider.IndexBucket | src/insidertrading/insidertrading.py:236-238 | the inner loop indexes one bucket as IndexRecords says, stopping at a record without an accession number |
| EdgarInsider.IndexAll | src/insidertrading/insidertrading.py:235-238 | the nested loop indexes all of transtop as IndexRecords says |
| EdgarInsider.EDGARInsiderTrading.AppendLargest | src/insidertrading/insidertrading.py:231-233 | transtop grows by Largest of the buckets; there is an IndexError exactly when there are fewer than 100 amounts |
| EdgarInsider.EDGARInsiderTrading.IndexTop | src/insidertrading/insidertrading.py:235-238 | bigtransdict becomes the index of transtop's records over its old contents, and every record stays under its own accession number |
| EdgarInsider.EDGARInsiderTrading.TopTrades | src/insidertrading/insidertrading.py:231-238 | transtop gains the top buckets; with fewer than 100 amounts the IndexError leaves bigtransdict alone, otherwise it is indexed |
| EdgarInsider.EDGARInsiderTrading.LargestTrades | src/insidertrading/insidertrading.py:181-238 | an exception in the row loop leaves everything unchanged; otherwise transtop gains the fields of the top buckets of Collect, largest first, and bigtransdict is indexed |
| Form345.JoinSubmissionsFrame | src/insidertrading/insidertrading.py:252-259 | on every run, one that raises part-way included, the submissions join keeps every key and every text entry, a record changes only under ISSUERTRADINGSYMBOL, and the only exceptions are IndexError (short matching row) and TypeError (a key holding text) |
| Form345.JoinSubmissionsEffect | src/insidertrading/insidertrading.py:252-259 | a run that does not raise keeps every key and every text entry, and sets each record's ISSUERTRADINGSYMBOL to column 11 of the last row with its key, or leaves the record as it was when no row has its key |
| Form345.SubmissionsKeepAccession | src/insidertrading/insidertrading.py:257-259 | apart from ISSUERTRADINGSYMBOL, each record's fields are unchanged, whether or not the join raises |
| EdgarInsider.EDGARInsiderTrading.SetSymbol | src/insidertrading/insidertrading.py:259 | writing into one shared record changes only that record's symbol field in the view of bigtransdict |
| EdgarInsider.EDGARInsiderTrading.Submissions | src/insidertrading/insidertrading.py:241-259 | updating the shared records in place has the effect JoinSubmissions gives on their contents |
| Form345.JoinNamesEffect | src/insidertrading/insidertrading.py:270-278 | the names join touches no key except RPTOWNERCIK and RPTOWNERNAME; a run without exception leaves there columns 1 and 2 of the last row whose column 0 was a key of bigtransdict when it was read (LastOwner), or bigtransdict unchanged when no row matched; the only exception is IndexError on a short matching row |
| EdgarInsider.EDGARInsiderTrading.Names | src/insidertrading/insidertrading.py:261-278 | the names loop changes bigtransdict as JoinNames says and nothing else |
| EdgarInsider.EDGARInsiderTrading.ProcessForm345 | src/insidertrading/insidertrading.py:280-283 | the three steps run in order and stop at the first exception; success means the transaction member had at least 100 amounts |
| EdgarInsider.DatasetPeriod | src/insidertrading/insidertrading.py:291-299 | the quarter is 2, 3 or 4; the year goes back by one exactly in January and February |
| EdgarInsider.Form345NameParts | src/insidertrading/insidertrading.py:301 | the name is `<year>q<quarter>_form345.zip` |
| EdgarInsider.Form345NameDeterminesPeriod | src/insidertrading/insidertrading.py:294-301 | two months that give the same name give the same period |
| EdgarInsider.EDGARInsiderTrading.constructor | src/insidertrading/insidertrading.py:25-49 | hdr is the contact, pause is 2, and transtop and bigtransdict start empty |
| EdgarInsider.EDGARInsiderTrading.Query | src/insidertrading/insidertrading.py:53-75 | the retry loop ends as RetryFrom says and sleeps as it says, including an exception other than URLError escaping at once; without hdr it raises AttributeError |
| Retry.RetryReturnsFirstSuccess | src/insidertrading/insidertrading.py:58-75 | the body returned is the body of the first successful attempt among the five |
| Retry.RetryExitsWhenAllFail | src/insidertrading/insidertrading.py:66-75 | the process exits with status 1 exactly when all five attempts fail |
| Retry.RetrySleeps | src/insidertrading/insidertrading.py:60-73 | sleep i lasts pause·2^i; there are four sleeps when all attempts fail, and every attempt before a sleep failed |
| Retry.DefaultBackoff | src/insidertrading/insidertrading.py:32-75 | with the default pause and no answer, the sleeps are 2, 4, 8 and 16 seconds |
| Retry.RetryRaisesFirstOther | src/insidertrading/insidertrading.py:61-66 | query raises an exception other than URLError exactly when the first attempt that is not a URLError raised it |
| Retry.DisconnectNotRetried | src/insidertrading/insidertrading.py:61-66 | a dropped connection on the first attempt escapes with no sleep and no exit |
| Retry.NotFoundIsRetried | src/insidertrading/insidertrading.py:66-74 | an HTTP 404 is retried like any other URLError |
| InsiderStore.InsiderDB.Connect | src/insidertrading/db.py:76-83 | the connection starts on a well-formed database |
| InsiderStore.CreateInsiderSchema | src/insidertrading/db.py:95-98 | creating the index fails only when the table already exists |
| InsiderStore.SchemaOnFreshDatabase | src/insidertrading/db.py:21-23 | on a database without either object, it creates an empty `insiders` table with the 29 columns and the index `insidx` on ACCESSION_NUMBER |
| InsiderStore.SchemaIdempotent | src/insidertrading/db.py:95-98 | running `newinsidertable` a second time changes nothing |
| InsiderStore.SchemaWellFormed | src/insidertrading/db.py:95-98 | the schema step keeps the database well formed and leaves the table and index in place |
| InsiderStore.InsiderDB.NewInsiderTable | src/insidertrading/db.py:95-98 | the two statements change the database as CreateInsiderSchema says, or fail without changing it |
| InsiderStore.Insert | src/insidertrading/db.py:85-88 | an insert fails exactly on a missing table or a wrong column count; otherwise it appends the row exactly when no unique index on the table already holds the row's value, and leaves the database as it was when one does; no other table changes |
| InsiderStore.InsertWellFormed | src/insidertrading/db.py:85-88 | insert-or-ignore keeps every unique index intact |
| InsiderStore.SecondInsertIgnored | src/insidertrading/db.py:85-88 | a second insert with the same accession number leaves the table unchanged |
| InsiderStore.OneRowPerAccession | src/insidertrading/db.py:23 | with the index in place, no two rows of `insiders` share an accession number |
| InsiderStore.InsiderDB.InsiderInsert | src/insidertrading/db.py:85-88 | the insert changes the database as Insert says and keeps it well formed |
| InsiderStore.FilterBetween | src/insidertrading/db.py:17 | BETWEEN keeps exactly the rows whose Date lies between the bounds as text, both ends inclusive, each as many times as the table holds it |
| InsiderStore.FilterBetweenAppend | src/insidertrading/db.py:17 | the selection keeps table order: a row at the table's end comes at the result's end when it is selected |
| InsiderStore.SelectBetween | src/insidertrading/db.py:17 | the selection fails exactly when the table or its Date column is missing |
| InsiderStore.NDaysWindowByDate | src/insidertrading/db.py:49-56 | `selectndays` returns exactly the rows dated from bdate through bdate + ndays + 1 days |
| InsiderStore.NDaysOverflow | src/insidertrading/db.py:49-51 | `selectndays` raises OverflowError exactly when the end date leaves years 1 to 9999 |
| InsiderStore.InsiderDB.SelectNDays | src/insidertrading/db.py:41-57 | the method computes the NDaysWindow selection |
| InsiderStore.DaysRangeVerbatim | src/insidertrading/db.py:67-71 | a valid ISO bound goes through fromisoformat and strftime unchanged |
| InsiderStore.DaysRangeByDate | src/insidertrading/db.py:67-73 | `selectdays` returns exactly the rows dated from sdate through edate |
| InsiderStore.InsiderDB.SelectDays | src/insidertrading/db.py:59-74 | the method computes the DaysRange selection |
| InsiderStore.InsidersHaveNoDateColumn | src/insidertrading/db.py:17-21 | the `insiders` table has no Date column, so both selections fail on it |
| InsiderStore.InsiderDB.ReportTable | src/insidertrading/db.py:100-107 | the report is one header line of column names, then one line per row in table order, each quoted and joined with `","` |
| InsiderStore.ReadQuoteLine | src/insidertrading/db.py:104-107 | a report line can be read back into its fields when no field contains a double quote |
| InsiderStore.QuotesNotEscaped | src/insidertrading/db.py:107 | with no escaping, the field `a","b` prints the same line as the two fields `a` and `b` |
| IsoDates.AddDays | src/insidertrading/db.py:50-51 | `date + timedelta(days=n)` lands n days later by ordinal, and is a valid date |
| IsoDates.AddDaysDefined | src/insidertrading/db.py:50-51 | adding days succeeds exactly when the result stays within years 1 to 9999 |
| IsoDates.ParseFormat | src/insidertrading/db.py:49-53 | formatting a valid date and parsing it back gives the date |
| IsoDates.FormatParse | src/insidertrading/db.py:67-70 | parsing a valid ISO text and formatting it back gives the text |
| IsoDates.FormatOrder | src/insidertrading/db.py:17 | ISO texts compare as text exactly as their dates compare |
| IsoDates.OrdinalOrder | src/insidertrading/db.py:50-51 | the ordinal orders dates as the calendar does and is one-to-one |
| IsoDates.DaysBeforeMonthByTable | src/insidertrading/db.py:50-51 | the days before a month are CPython's `_DAYS_BEFORE_MONTH` entry plus the leap day from March on |
| IsoDates.YearStep | src/insidertrading/db.py:50-51 | the closed-form day count before a year grows by that year's length |

## Left out

- Zip decoding and file writes (`form345zipfileiter`, `storequery`). Each archive member is given as its sequence of lines, split as `splitlines` would split them.
- The network (`urllib.request`). `query` takes the outcome of each attempt as a parameter. Its messages to stderr and stdout are not modelled. The `query` in `db.py` has no retry and is left out.
- `float()` and IEEE arithmetic. Parsing and multiplication are a `FloatOps` parameter: a partial parse to `real` and a product. Rounding, infinities and NaN are not modelled.
- `datetime.now()` in `genform345name`. Year and month are parameters.
- `EQEMAIL`. The constructor takes the environment variable's value as an `Option`. When it is missing, `hdr` is never set and `query` raises AttributeError.
- SQLite itself. The database is tables of text rows plus unique indexes, with these simplifications:
  - the SQL statements are not parsed, so text that would break the interpolated SQL is not modelled;
  - `date('…')` is the identity on the `%Y-%m-%d` text both selections pass it;
  - `SELECT` returns rows in insertion order;
  - a report's columns are the table's declared columns;
  - column names are matched exactly, where SQLite ignores their case: a table whose column is declared `date` is found by SQLite's `WHERE Date` but not by the model. The `insiders` table has no such column under any case.
- `db.py` `query`, `newtinsidertable`, `main` and the `InsiderDB` constructor's statement templates for other tables: they are unused by the core or reference names that do not exist.
- News, price and HTML scraping, and all of `common.py`: not part of this model.
- EdgarInsider.EDGARInsiderTrading.ProcessForm345: states only the first step's failure and what success implies. The effect of the later steps is what Submissions and Names state, and it is not repeated here.
- EdgarInsider.EDGARInsiderTrading.LargestTrades: `bigtransdict` and `transtop` are stated through their field contents and record sets. Which object sits where is stated only as inclusion of record sets, not object by object.
- IsoDates.Parse: follows `date.fromisoformat` as Python 3.7 to 3.10 define it, which accepts only `YYYY-MM-DD`. The source does not fix a Python version. From 3.11, forms such as `20240315` and `2024-W11-5` are also accepted, and `selectdays` then succeeds where the model raises ValueError.
- IsoDates.Format: pads the year to four digits. On platforms whose `strftime` does not pad `%Y`, years below 1000 give shorter text.
- Dates outside years 1 to 9999 are not representable, as in Python. Time zones do not enter.
