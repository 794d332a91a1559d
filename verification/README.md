# A verified model of the Dilbert feed scraper

`dilbert/dilbert.py` keeps a local archive of the daily Dilbert strip. Each
run does two things:

- it walks the days from the one after the newest stored strip (or from nine
  days ago on an empty archive) through today;
- for each day it fetches the strip's page, picks out the comic image,
  downloads it as `<iso date>.gif` and records a row in the `dilbert` sqlite
  table.

The feed is then built from the newest rows. This Dafny project models that
core and proves properties of it.

The modules follow the script's structure:

- `Calendar` (calendar.dfy): Python `date` values as proleptic Gregorian
  ordinals, bounded by `date.min` and `date.max`.
  - `AddDays` is `date + timedelta`; it gives `None` where Python raises
    `OverflowError`.
  - `IsoDate` is `date.isoformat()`, computed exactly and proved injective.
- `DateRange` (daterange.dfy): `_daterange`, the inclusive run of days
  between two dates.
- `Text` and `Markup` (text.dfy, markup.dfy): the two pieces of text handling
  that pick the comic out of a day's page.
  - The XPath class test `contains(concat(' ', normalize-space(@class), ' '), ' img-comic ')`
    is written out literally and proved to mean "`img-comic` is one of the
    class tokens".
  - `re.sub(' - .*$', '', alt)` keeps a one-line caption up to its first
    `" - "`. On a caption with line feeds only a `" - "` on the last line
    is cut, because `.` stops at a line feed.
- `Comics` (comic.dfy): `DilbertComic`.
  - Its two constructors, both with the empty-title fix.
  - Its `<img>` tag, with a reader that recovers the tag's attributes.
  - The draft that `find_comic_by_pubdate` builds from the first comic image
    of the page.
- `Store` (store.dfy): the `dilbert` table as a value.
  - Its rows and its AUTOINCREMENT counter.
  - The UNIQUE filename check on insert.
  - `order by pubdate desc limit n` (a negative limit means no limit).
  - The largest stored `pubdate`.
- `Sync` (sync.dfy): `update_comic_by_pubdate` and `update` as functions of
  a table, the outside world and the day the run happens on. It holds the
  properties of repeated runs: idempotence, resumption at the failing day,
  and at most one row per date.
- `Scraper` (dilbert.dfy): the `Dilbert` class. It owns the table and changes
  it in place. Each method is proved against the `Store` and `Sync`
  functions.

The outside world is an `Env` value with three parts:

- `fetch(url)` is the parsed page, or `None` when the request fails;
- `download(filename, url)` says whether saving the image worked;
- `clock(day)` is the timestamp the store writes in `updated`.

"Today" is a parameter of `update`. Every way a step can fail (a failed
request, no comic image, no `alt` text, a failed download, the UNIQUE
constraint) is a value of `Comics.Error`. So is the date overflow that
`update` can hit while it computes its first day, before any step runs. The
first failure ends a run, as the uncaught exception does in the script.

On an empty archive `update` starts from today minus ten days (the code's
comment at `dilbert/dilbert.py:199`, "default: 10 days ago") and then adds
one day. The first run therefore covers the ten days `today - 9` through
`today` (`BootstrapCoversTenDays`).

## Model

| member | source | states |
|---|---|---|
| Calendar.AddDays | dilbert/dilbert.py:201-203 | `d + timedelta(days=n)` is defined exactly when the result lies between `date.min` and `date.max`, and is then `n` days after `d` |
| Calendar.ToCivil | dilbert/dilbert.py:155 | the fields of `date.fromordinal`: a year from 1 on, a month from 1 to 12, and a day within that month's length |
| Calendar.ToCivilOrdinal | dilbert/dilbert.py:155 | the civil date maps back to its ordinal under Python's `_ymd2ord` formula (days before the year, plus days before the month, plus the day), so the conversion is exact |
| Calendar.ToCivilInjective | dilbert/dilbert.py:155 | different ordinals are different civil dates |
| Calendar.IsoDate | dilbert/dilbert.py:155 | `isoformat()`; `IsoDateValues` proves it is the year, month and day written "YYYY-MM-DD", and `IsoDateInjective` that different dates render differently |
| Calendar.IsoDateValues | dilbert/dilbert.py:155 | the rendering is exactly ten characters: four digits whose value is the year, a dash, two digits whose value is the month, a dash, and two digits whose value is the day |
| Calendar.YearBound | dilbert/dilbert.py:155 | every date up to `date.max` lies in a year of at most four digits, so `%04d` never widens the year |
| Calendar.IsoDateInjective | dilbert/dilbert.py:155 | two different dates never have the same `isoformat()` text |
| DateRange.Range | dilbert/dilbert.py:23-26 | the range has `end - start + 1` days when `end >= start` and none otherwise, and day `i` is `start + i` |
| DateRange.RangeShape | dilbert/dilbert.py:23-26 | a non-empty range starts at `start`, ends at `end` and climbs by exactly one day |
| DateRange.InRange | dilbert/dilbert.py:23-26 | a day is in the range exactly when it lies between the two ends, both included |
| DateRange.RangeSuffix | dilbert/dilbert.py:23-26 | dropping the first `k` days of a range leaves the range that starts `k` days later |
| Markup.HasClassIffToken | dilbert/dilbert.py:161 | the XPath class test holds exactly when the name is one of the white-space separated tokens of the class attribute |
| Markup.HasClass | dilbert/dilbert.py:161 | the literal XPath class test; `HasClassIffToken` proves it holds exactly when the name is a class token |
| Markup.StripTitle | dilbert/dilbert.py:165 | the substitution never lengthens the caption |
| Markup.TitleBeforeFirstSeparator | dilbert/dilbert.py:165 | on a one-line caption the title is the prefix before the first `" - "`, and a caption without `" - "` is kept whole |
| Comics.NormaliseTitle | dilbert/dilbert.py:64-66 | an empty title becomes `"-"`; every other title, an absent one included, is unchanged; the result is never empty |
| Comics.NormaliseIdempotent | dilbert/dilbert.py:64-66 | applying the empty-title fix twice gives the same as applying it once |
| Comics.FromFields | dilbert/dilbert.py:54-66 | the keyword constructor keeps every field as given except an empty title, which becomes `"-"` |
| Comics.FromRow | dilbert/dilbert.py:45-53 | the row constructor copies every column, id and timestamp included, with the same title fix |
| Comics.RowRoundTrip | dilbert/dilbert.py:45-53 | a comic written as a row and read back is the same comic, now carrying the id and timestamp the store gave it |
| Comics.ToRow | dilbert/dilbert.py:185-187 | the row the insert writes for a comic; `RowRoundTrip` proves reading it back gives the comic with the store's id and timestamp |
| Comics.ImgTag | dilbert/dilbert.py:90 | the tag's format string filled in; `ParseImgTag` proves a reader recovers `src`, `alt` and exactly the truthy width and height |
| Comics.ParseImgTag | dilbert/dilbert.py:82-90 | reading the filled-in format string back gives its `src` and `alt`, and a width (height) exactly when that value is truthy |
| Comics.Tag | dilbert/dilbert.py:81-91 | `tag(baseurl)`; `TagAttributes` states its attributes |
| Comics.TagAttributes | dilbert/dilbert.py:81-91 | the tag's `src` is `<baseurl>/<filename>` and its `alt` is `comic for <iso date>`; it has a width (height) attribute exactly when the width (height) is truthy, holding that value |
| Comics.FileNameFor | dilbert/dilbert.py:166 | the file name is exactly the ISO date followed by `.gif` |
| Comics.FileNameInjective | dilbert/dilbert.py:166 | different dates get different file names |
| Comics.StripUrl | dilbert/dilbert.py:155 | the archive page of a date is the fixed prefix followed by the ISO date; `StripUrlInjective` states what that buys |
| Comics.StripUrlInjective | dilbert/dilbert.py:155 | different dates have different archive pages |
| Comics.IsComicImage | dilbert/dilbert.py:161 | the element test of the XPath query; `ComicImageByToken` proves it selects exactly the `<img>` elements carrying the `img-comic` class token |
| Comics.ComicImageByToken | dilbert/dilbert.py:161 | an element is selected exactly when it is an `<img>` with a class attribute one of whose tokens is `img-comic` |
| Comics.FirstComicImage | dilbert/dilbert.py:161 | `xpath(...)[0]` finds the first selected element in document order, and nothing exactly when no element is selected |
| Comics.DraftFrom | dilbert/dilbert.py:162-169 | the draft fails only for an element without `alt`; otherwise it has no id, the given date, the `<iso date>.gif` file name, the element's `src`, width and height, and the stripped, normalised caption as title |
| Comics.FindComicByPubdate | dilbert/dilbert.py:152-170 | a failed request and a page without a comic image are errors; otherwise the result is the draft built from the first comic image of the page, so it fails with the missing-`alt` error exactly when that image has no `alt`, and takes its title, `src` and sizes from that image; a draft found is for the requested date, under its derived file name, with no id and a non-empty title |
| Store.Insert | dilbert/dilbert.py:118 | an insert fails with the duplicate file name exactly when that file name is stored; otherwise it appends exactly one row, keeps every earlier row, and uses the next id |
| Store.InsertKeepsValid | dilbert/dilbert.py:112-123 | an insert keeps the file names and ids of the table unique and the ids within the counter |
| Store.Latest | dilbert/dilbert.py:138 | the latest date is absent exactly when the table is empty |
| Store.LatestBounds | dilbert/dilbert.py:136-141 | the latest date is the date of a stored row and no stored row is newer |
| Store.LatestIs | dilbert/dilbert.py:136-141 | a stored date that no other stored date exceeds is the latest date |
| Store.SortNewestFirst | dilbert/dilbert.py:147 | `order by pubdate desc` returns a permutation of the rows in non-increasing date order |
| Store.Limit | dilbert/dilbert.py:147 | `limit n` keeps at most `n` rows and at most the table's size, and all rows when `n` is negative |
| Store.Query | dilbert/dilbert.py:147 | the rows of the query, the newest-first order cut at the limit; `QueryNewest` states their number, their order and that they come from the table |
| Store.QueryNewest | dilbert/dilbert.py:144-150 | the query returns `min(n, size)` rows (all for a negative `n`), taken from the table, newest first, and every row it leaves out is no newer than any row it returns |
| Store.QueryHeadIsLatest | dilbert/dilbert.py:136-141 | the one row of `limit 1` on a non-empty table carries the latest date |
| Sync.Fetched | dilbert/dilbert.py:193-194 | a step gets its comic exactly when the page gave a draft with an image URL and the download of that URL worked, and the comic is then that draft; a page error is passed on unchanged, and a failed download is the download error |
| Sync.Step | dilbert/dilbert.py:192-195 | a failed fetch or download makes the day fail with that error, so nothing is inserted; otherwise the day is the insert of the draft with the clock's timestamp, which succeeds exactly when the day's file name is not yet stored and then appends one row for that day under its derived file name; a day refused by the UNIQUE constraint has its file name already stored |
| Sync.SyncDates | dilbert/dilbert.py:205-207 | a run over a list of days appends one row for each day of a prefix of the list, in order; it fails exactly when that prefix is not the whole list, and then with the error of the next day's step; `SyncStoresDrafts` proves each appended row is its day's draft |
| Sync.FirstDayDraft | dilbert/dilbert.py:192-195 | a successful day keeps the earlier rows and appends, under the next id, the draft fetched and downloaded for that day, stamped by the clock |
| Sync.SyncStoresDrafts | dilbert/dilbert.py:205-207 | every day a run stores passed its fetch and download, and its row is that day's draft (url, title, file name, width, height) with the ids handed out in order and the clock's timestamp |
| Sync.UpdateStoresDrafts | dilbert/dilbert.py:197-208 | every row `update` appends is the draft fetched and downloaded for its own date, with the next ids in order and the clock's timestamp |
| Sync.StartDate | dilbert/dilbert.py:198-203 | the first day is the day after the latest stored date, or today minus nine on an empty store; it is an overflow error exactly when the latest stored date is `date.max`, or when the store is empty and today minus ten already lies before `date.min` (today is one of the first ten days of the calendar) |
| Sync.UpdateRun | dilbert/dilbert.py:197-208 | the run `update` makes on a given day; `RunAddsConsecutiveDays`, `RunStops`, `FailingDay`, `UpdateStoresDrafts`, `UpdateIdempotent`, `FailedDayIsRetried` and `UpdateNeverDuplicates` state its properties |
| Sync.BootstrapCoversTenDays | dilbert/dilbert.py:200-205 | on an empty store after the tenth day of the calendar, `update` fetches exactly the ten days ending today |
| Sync.RunAddsConsecutiveDays | dilbert/dilbert.py:197-208 | `update` keeps every stored row, appends rows for consecutive days from its start day, none after today, each under its derived file name, and all newer than every row found |
| Sync.RunStops | dilbert/dilbert.py:205-207 | a failed run stops at a day no later than today; a completed run has stored every day through today |
| Sync.FailingDay | dilbert/dilbert.py:205-207 | the day a run fails on is `start + done`, the day after the last one stored, and its step fails with the reported error |
| Sync.FailedDayNotStored | dilbert/dilbert.py:192-207 | after a failed run no stored row is for the failing day or any later day |
| Sync.CaughtUpIsNoOp | dilbert/dilbert.py:203-205 | when the latest stored date is today or later (and below `date.max`, where `update` raises the overflow instead; `RepeatAfterSuccess` shows the table is unchanged there too), `update` fetches nothing and changes nothing |
| Sync.LatestAfterRun | dilbert/dilbert.py:197-208 | after a run the latest stored date is the last day stored, or the day before the start when nothing was stored |
| Sync.SuccessReachesToday | dilbert/dilbert.py:197-208 | after a run without failure the latest stored date is today or later |
| Sync.FailedDayIsRetried | dilbert/dilbert.py:197-208 | after a failed run that leaves the table non-empty, the next run, on any day, starts at the day that failed |
| Sync.UpdateIdempotent | dilbert/dilbert.py:197-208 | running `update` a second time on the same day, against the same outside world, leaves the table as the first run left it |
| Sync.RepeatAfterProgress | dilbert/dilbert.py:197-208 | a run that stored some days and then failed, when repeated, stores nothing and fails again with the same error |
| Sync.NothingStored | dilbert/dilbert.py:197-208 | a run that stored no day leaves the table exactly as it found it |
| Sync.RepeatAfterFailure | dilbert/dilbert.py:197-208 | when the day after the latest stored date is not after today and its step fails, `update` stores nothing and fails with that error |
| Sync.SyncKeepsValid | dilbert/dilbert.py:205-207 | a run over any days keeps file names and ids unique and every file name derived from its row's date |
| Sync.OneRowPerDate | dilbert/dilbert.py:118 | a table with unique file names derived from dates never holds two rows for one date |
| Sync.UpdateKeepsValid | dilbert/dilbert.py:197-208 | `update` keeps file names and ids unique and every file name derived from its row's date |
| Sync.UpdateNeverDuplicates | dilbert/dilbert.py:197-208 | on a table whose file names are derived from dates, `update` never stops on the UNIQUE constraint |
| Scraper.Dilbert.constructor | dilbert/dilbert.py:95-97 | the scraper opens on the table an earlier run stored, unchanged |
| Scraper.Dilbert.LatestDateInDb | dilbert/dilbert.py:136-141 | the loop over `limit 1` returns the largest stored date, or nothing on an empty table |
| Scraper.Dilbert.RecentComics | dilbert/dilbert.py:144-150 | the loop builds one comic per row of the limited newest-first query, in that order: `min(n, size)` comics (all of them for negative `n`), by non-increasing date |
| Scraper.Dilbert.WriteComicToDb | dilbert/dilbert.py:182-190 | the write fails with the duplicate file name, leaving the table unchanged, exactly when the file name is stored; otherwise the table becomes the insert's result; either way the table stays valid |
| Scraper.Dilbert.UpdateComicByPubdate | dilbert/dilbert.py:192-195 | the method leaves the table as the one-day step says: the row appended on success, unchanged on failure with the step's error |
| Scraper.Dilbert.Update | dilbert/dilbert.py:197-208 | the method leaves the table as the `update` run says, and fails exactly when that run fails, with its error |
| Scraper.Dilbert.FetchDays | dilbert/dilbert.py:205-207 | the loop over the days leaves the table as the run over those days says, and fails exactly when that run fails, with its error |

## Left out

- HTTP is not modelled: `fetch_url`, the User-Agent header and the FTP-handle check are folded into `Env.fetch` returning `None`.
- lxml parsing and the XPath engine are outside the model. A page is a sequence of elements in document order. Only the class test is modelled.
- Image file writing in `download_comic` is the `Env.download` answer.
- The sqlite connection, `open_db` and `__del__` are not modelled, and neither is the SQL text. The table is a value held by the `Dilbert` object, and the `STRFTIME` default of `updated` is the `Env.clock` reading.
- `time.sleep(1.2)` pacing and the `_debug` and `print` output are not modelled.
- `update` calls `date.today()` up to twice (line 201 on an empty table, and line 205); the model takes one `today` for the whole run.
- Stored dates are day numbers. The text form of `pubdate` in the table and its `fromisoformat` parsing are not modelled. This assumes text order equals date order, which holds for four-digit years.
- `Comics.DraftFrom` keeps `src`, width and height as the element gives them, and the file name as a string rather than a `Path`.
- `Store.Insert` stores each field as it is. The `str()` coercion in `write_comic_to_db` (which writes an absent width as the text `"None"`) is not modelled, nor are the `NOT NULL` constraints on `url` and `pubdate` (`str(None)` would satisfy them anyway).
- Comics.RowRoundTrip holds for the model's store only. The script writes every field through `str()`, so an absent width or height comes back as the text `"None"`, and the INT affinity of `width` and `height` turns a stored `"0"` into the falsy number 0.
- Comics.TagAttributes describes the tag of a comic as the model's store returns it. For a comic read back from the script's table, an absent width renders as `width="None"`, and a width of 0 renders no width attribute.
- Comics.TagAttributes requires that the base URL, the file name, the width and the height hold no double quote. `tag` escapes nothing, so a quote in any of them would end the attribute early and the tag would not read back.
- The default arguments `comics(num=10)` and `tag(baseurl='.')` are not modelled. `Scraper.Dilbert.RecentComics` and `Comics.Tag` take the number and the base URL explicitly.
- `Markup.StripTitle` follows Python's `$` and `.` in non-multiline mode. `Markup.TitleBeforeFirstSeparator` states the title property only for captions without a line feed.
- `DilbertComic.__getitem__` is not modelled; the model reads fields directly.
- `feed`, `rss`, `write_rss` and the command-line entry point are not modelled. They are thin wrappers over feedgenerator, and `tag` is the one piece of them modelled.
- `Sync.UpdateIdempotent` and the other repeated-run lemmas assume the outside world answers the same way on both runs. They say nothing about a page or download that changes between runs.
