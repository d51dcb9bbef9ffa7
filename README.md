# parkedlikea: a verified model of `generate.py`

`generate.py` builds the single page `index.html` of the site "Parked like a
cunt in Scotland" from the photographs in its `cunts/` folder. Each photo's
file name has the form `YYYY-MM-DD at HH.MM.SS in <Location>.<ext>`. The page
has a fixed head with a counter, the newest sighting as the "Latest" card (or
a placeholder when there is none), a gallery of all the older sightings, and
a small share script.

This Dafny project models that pipeline and proves properties of it:

- `Pattern`: `IMAGE_PATTERN`, written as a hand-made matcher. It is case
  insensitive, it lets `$` match before one final newline, and it accepts
  exactly the names that decompose into the pattern's groups.
- `Images`: `parse_images`. It is a loop that collects one record per
  matching name, followed by Python's stable `sort(reverse=True)` on
  `"<date> <time>"`. `Sorting` defines that sort and Python's string order.
- `Formatting`: `format_time` (`str.split` then the first two fields) and
  `format_date`. For `format_date` the model covers what `strptime` reads
  for `%Y-%m-%d`, including its calendar check and its `ValueError`, and then
  `strftime("%-d %B %Y")`.
- `Anchor`: `make_anchor`, which builds the slug, replaces characters
  outside `[a-zA-Z0-9-]`, lowercases and strips `-`.
- `Quote`: `enc`, which is `urllib.parse.quote` with its default
  `safe='/'`. Each character is encoded as UTF-8, and every byte other than
  `A-Za-z0-9_.-~/` becomes `%XX` with uppercase hex. A strict decoder is
  proved to invert it.
- `Page`: `generate` as a method. It grows the page text block by block;
  its gallery loop, `GallerySection`, accumulates the section's text and
  stops at the first record whose date or time cannot be formatted. Its result is tied to a layout function (`PageBlocks`) and a
  renderer. The layout's properties are proved: the counter, the
  placeholder, the latest card and the gallery.
- `Text` and `Types` hold shared helpers: digits, `str.strip`, `str.split`,
  decimal printing, and `Result`/`Option`.

`Generate` is proved for any function that computes a record's values and
any template. `BuildSite`, which models `__main__`, uses it with the
generator's own ones: `RecordView` and `BlockText`. `BlockText` reproduces
the source's HTML text verbatim, with `{{`/`}}` unescaped.

In the source file, non-ASCII characters appear mis-decoded as Windows-1252 (cp1252). The
car emoji in the favicon and the title is written here as the character it
stands for, U+1F697.

## Model

| member | source | states |
|---|---|---|
| Pattern.MatchSound | generate.py:16-19 | whatever the matcher returns is a well-formed split of the name: a `\d{4}-\d{2}-\d{2}` date, " at " in any case, a `\d{2}.\d{2}.\d{2}` time, " in ", a non-empty location without a newline, "." and an allowed extension, optionally followed by one newline |
| Pattern.WholeSound | generate.py:17 | a match of the whole string is a well-formed split that spells exactly that string |
| Pattern.WholeComplete | generate.py:17 | every well-formed split is found again when its name is matched as a whole |
| Pattern.MatchComplete | generate.py:16-19 | every well-formed split, with or without one trailing newline, is matched back to exactly that split |
| Pattern.MatchExactlyLanguage | generate.py:16-19 | a name matches if and only if it is in the pattern's language |
| Pattern.MatchExample | generate.py:16-19 | "2024-03-05 at 14.30.00 in Glasgow.jpg" matches, with groups 2024-03-05, 14.30.00, Glasgow and jpg |
| Pattern.MatchExampleUpperCase | generate.py:16-19 | because of IGNORECASE, "AT", "In" and "JPEG" in upper or mixed case are accepted |
| Pattern.MatchExampleRefused | generate.py:16-19 | an extension outside jpg/jpeg/png/webp/gif (here ".bmp") is refused |
| Sorting.LexLessIrreflexive | generate.py:32 | no string sorts before itself |
| Sorting.LexLessTransitive | generate.py:32 | Python's string order is transitive |
| Sorting.LexLessTotal | generate.py:32 | of two different strings, one sorts before the other |
| Sorting.LexLessAsymmetric | generate.py:32 | two strings never sort before each other |
| Sorting.SortDescCorrect | generate.py:32 | the sorted list is non-increasing by key, is a permutation of the input, and keeps records with equal keys in input order (a stable sort) |
| Sorting.SortedUnique | generate.py:32 | two non-increasing lists that hold the same records for every key, in the same order, are equal |
| Sorting.SortDescCharacterized | generate.py:32 | a list is the result of the stable descending sort if and only if it is non-increasing and agrees with the input, key by key |
| Images.ParseImages | generate.py:22-33 | the loop collects the accepted records in listing order and returns them stably sorted newest first. The result is a permutation of the accepted records, and a record is in it if and only if its file name is one of the names and parses to it |
| Images.AcceptedMembers | generate.py:25-31 | the accepted records are exactly the records of the names the pattern accepts; a non-matching name contributes nothing |
| Images.ParseNameAccepts | generate.py:25-26 | a name yields a record if and only if it is in the pattern's language |
| Images.ParseNameFields | generate.py:27-31 | the record holds the date and time groups as written, the location group stripped of surrounding whitespace, the original name, and the 19-character key "<date> <time>" |
| Images.ParseNameBlankLocation | generate.py:29 | a location made only of whitespace is accepted and becomes empty |
| Images.AcceptedFields | generate.py:27-31 | every accepted record has a date and a time of the pattern's shape, its key is "<date> <time>", and its file name is one of the names |
| Text.NatToString | generate.py:286 | the decimal text of n is non-empty and all digits, reads back as n, and has a leading "0" only for 0 |
| Text.Split | generate.py:37 | `str.split` yields at least one part; no part contains the separator; joining the parts gives back the string |
| Text.Strip | generate.py:29 | `str.strip` returns a contiguous piece of the string that neither starts nor ends with stripped characters, with only such characters cut at each end |
| Formatting.FormatTimeFails | generate.py:36-38 | `format_time` raises `IndexError` if and only if the string holds no "." |
| Formatting.FormatTimeFields | generate.py:36-38 | the result is the first two dot-separated fields joined by ":" |
| Formatting.FormatTimeOfPatternTime | generate.py:36-38 | for a time of the pattern's shape the result is "HH:MM", 5 characters with the leading zeros kept |
| Formatting.FormatTimeExample | generate.py:36-38 | "14.30.00" gives "14:30" |
| Formatting.MonthOfPatternDate | generate.py:42 | `strptime` reads the pattern's two month digits if and only if they are 1 to 12 |
| Formatting.DayOfPatternDate | generate.py:42 | `strptime` reads the pattern's two day digits, leaving nothing unconverted, if and only if they are 1 to 31 |
| Formatting.YearDigits | generate.py:42-43 | a four-digit year is read and printed back exactly as written |
| Formatting.FormatDateOfPatternDate | generate.py:41-43 | for a date of the pattern's shape, `format_date` succeeds if and only if it is a calendar date (year at least 1, month 1-12, day within the month, leap years counted). It then gives "<day without leading zero> <English month> <year as written>"; otherwise it raises `ValueError` |
| Formatting.FormatDateExample | generate.py:41-43 | "2024-03-05" gives "5 March 2024" |
| Formatting.FormatDateRejects | generate.py:41-43 | "2024-13-01" and "2024-02-30" match the pattern but raise `ValueError` |
| Anchor.RemoveChar | generate.py:47 | `replace('.', '')` leaves no "." and never lengthens the string |
| Anchor.TimeWithoutDots | generate.py:47 | a pattern time "HH.MM.SS" becomes "HHMMSS" |
| Anchor.ReplaceDisallowed | generate.py:48 | `re.sub(r"[^a-zA-Z0-9-]", "-", s)` keeps the length and replaces exactly the characters outside the class by "-" |
| Anchor.Lower | generate.py:48 | `.lower()` keeps the length and lowercases each character |
| Anchor.NormalizeShape | generate.py:46-49 | the anchor holds only `[a-z0-9-]`, neither starts nor ends with "-", and is no longer than the raw slug |
| Anchor.NormalizeFixedPoints | generate.py:48 | the sub/lower/strip step leaves a string unchanged if and only if it already has that shape |
| Anchor.NormalizeIdempotent | generate.py:48 | applying the sub/lower/strip step twice is the same as applying it once |
| Anchor.AnchorOfRecord | generate.py:46-49 | for a pattern date and time the anchor is "<date>-HHMMSS" followed by the cleaned "-<location>" with trailing dashes stripped |
| Anchor.AnchorPrefix | generate.py:46-49 | for a pattern date and time the anchor starts with the 17 characters "<date>-HHMMSS" |
| Anchor.AnchorExample | generate.py:46-49 | 2024-03-05, 14.30.00 and Glasgow give "2024-03-05-143000-glasgow" |
| Anchor.AnchorCollision | generate.py:48 | two locations that differ only in one position, where both characters are outside the class, give the same anchor |
| Anchor.AnchorCaseFolded | generate.py:48 | locations that agree up to ASCII case give the same anchor |
| Quote.Utf8RoundTrip | generate.py:53 | decoding the UTF-8 encoding of a string gives it back |
| Quote.Utf8DecodeExact | generate.py:53 | bytes that decode are exactly the encoding of what they decode to |
| Quote.PercentRoundTrip | generate.py:53 | percent-decoding what `quote` writes for a byte sequence gives the bytes back |
| Quote.PercentDecodeExact | generate.py:53 | text that percent-decodes is exactly what `quote` writes for the decoded bytes |
| Quote.QuoteBytesAlphabet | generate.py:53 | `quote` writes only `A-Za-z0-9_.-~/`, "%" and uppercase hex digits |
| Quote.EncRoundTrip | generate.py:52-53 | decoding `enc(name)` gives back `name`; the output holds only `A-Za-z0-9_.-~/`, "%" and uppercase hex digits |
| Quote.UnquoteExact | generate.py:52-53 | any text the decoder accepts is exactly `enc` of what it decodes to |
| Quote.EncInjective | generate.py:52-53 | different names never encode alike |
| Quote.EncAppend | generate.py:52-53 | `enc` of a concatenation is the concatenation of the encodings |
| Quote.EncKeepsSafe | generate.py:52-53 | a name made only of safe characters is left unchanged |
| Quote.EncSpace | generate.py:52-53 | a space between safe parts becomes "%20" |
| Page.Generate | generate.py:56-365 | the page is built piece by piece: the head with the counter, the latest card or the placeholder, and the gallery loop when there is more than one record. It is exactly the text of the page layout for the records' views, or the error of the first record, in list order, whose date or time cannot be formatted |
| Page.GallerySection | generate.py:314-340 | the gallery loop appends, for each of `images[1:]` in order, the item of its values between the divider and the closing tag, and nothing when there are fewer than two records; it stops at the first record whose values cannot be computed, with that record's error |
| Page.BuildSite | generate.py:371-375 | the page for a directory listing is the page of its accepted records, stably sorted newest first |
| Page.PageShape | generate.py:286-343 | the counter comes first and the footer last; the placeholder appears if and only if there are no records; the newest record is the latest card; the divider and the gallery's opening and closing appear if and only if there are two or more records; the page has n + 4 blocks for n >= 2 records and 3 otherwise |
| Page.PageShown | generate.py:290-340 | every record is shown exactly once, in list order, and the gallery holds exactly `images[1:]`, in order, when there are two or more records and nothing otherwise |
| Page.GalleryOfRecords | generate.py:314-340 | with two or more records the gallery holds exactly the views of `images[1:]`, in list order; with fewer there is no gallery |
| Page.CounterShows | generate.py:286 | the counter line reads back as the number of records in decimal, with the plural "s" if and only if that number is not 1 |
| Page.CollectSucceeds | generate.py:290-326 | the views are computed if and only if every record's view is, one per record and in list order |
| Page.CollectFails | generate.py:290-326 | when generation fails, the error is that of the first record, in list order, that fails |
| Page.RecordViewOfRecord | generate.py:291-295 | for a pattern date and time, a record's values can be computed if and only if its date is a calendar date, and otherwise the error is `ValueError`. The date then reads "<day> <Month> <year>" and the time "HH:MM"; the encoded name decodes back to the file name; the anchor starts with "<date>-HHMMSS" |
| Page.BuildViews | generate.py:371-374 | the sorted records' views are computed if and only if every accepted name has a calendar date, and then there is one per accepted name; otherwise the error is `ValueError` |
| Page.BuildSucceeds | generate.py:371-375 | whatever the template text, a page is generated if and only if every accepted name has a calendar date; otherwise generation stops with `ValueError` and no page is produced |

## Left out

- Reading the directory (`CUNTS_DIR.iterdir()`, generate.py:24) is not modelled. The entry names are a parameter, in listing order. Entries are not told apart as files or directories, because the source does not do so either.
- Writing `index.html` (generate.py:367) and the three `print` messages (generate.py:368, 373, 375) are I/O and are not modelled. `BuildSite` returns the page text, or the error that would have stopped the program.
- `\d` is modelled as the ASCII digits only. Python's `\d` also accepts other Unicode decimal digits, which would then reach `strptime`.
- IGNORECASE is modelled for ASCII letters plus the two dotted and dotless I characters that Python's case folding relates to "i". No other Unicode case folding is modelled.
- Formatting.FormatDate: only the `%Y-%m-%d` path of `strptime` is modelled. The `%-d %B %Y` output fixes English month names and a glibc-style `%-d`; the locale-dependent and platform-dependent `strftime` behaviour is not modelled. `%Y` is modelled as four digits with leading zeros, so years 0001-0999 print as written; the C library behind some Python builds prints them without the zeros, which the model does not capture.
- Quote.Enc: Dafny characters are Unicode scalar values, so the lone surrogates on which Python's `quote` raises cannot be expressed.
- Quote.Unquote: the decoder that partners `enc` is strict. It accepts only canonical output, with uppercase hex and no needless escapes. Python's lenient `unquote` is not modelled.
- Page.Generate: the HTML template text (the style sheet, the SVG icons and the share script, generate.py:57-287 and 343-365) is reproduced verbatim in `BlockText`. The proofs about the page are stated on the block layout and hold for any template text. The browser-side clipboard behaviour of the script is not modelled.
- Page.Generate: like the source, the model inserts the location, the anchor and the encoded name into the HTML without escaping.
