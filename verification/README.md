# Text-extraction heuristics of the tineret scraper

The scraper reads announcements of draft legislation from the Romanian youth
and sport ministry's web site. For each announcement it:

- classifies the title into an instrument type (LEGE, HG, OG, OUG, OM or OTHER);
- repairs titles whose first word is spelled out letter by letter;
- parses the publication date;
- lists the attached documents;
- finds the public-consultation deadline, as a number of days and a date;
- collects e-mail addresses and telephone/fax numbers from the body text.

This project models those heuristics as pure Dafny functions over
`seq<char>` and proves properties about them. The model follows the Python 2
semantics the code runs with:

- `re.sub(p, r, s, re.UNICODE)` passes `re.UNICODE` (32) as the replacement count.
- `\d` and `\s` are ASCII classes, because no pattern is compiled with the unicode flag.
- `.` stops only at a newline.
- `datetime.strptime` behaves as Python 2.7's `_strptime`.
- `int()` accepts surrounding whitespace and a sign. Its text is the byte string `unidecode` returns, so whitespace there is the C `isspace` set: `' '` and `\t`..`\r`.
- Python truthiness: `0` days counts as "not found".

Errors the code lets escape are modelled as `Failure` values of `Wrappers.Raised`:

- `UnboundLocalError` from `parse_date` when the date does not parse;
- `OverflowError` from `date + timedelta` outside years 1..9999;
- `AttributeError` from `list.push` on a repeated contact key, and from a link without `href`.

Modules:

- `Wrappers`: `Option` and `Result`.
- `Text`: character classes, `lower`, `strip`, `split`/`join`, and substring search.
- `Numerals`: digit strings, zero padding, and `int()`.
- `Calendar`: proleptic Gregorian dates, ordinals, `timedelta` addition, and ISO rendering.
- `Strptime`: the formats `%d.%m.%Y` and `%d %B %Y`.
- `DateParser`: `parse_date`.
- `Diacritics`: `strip_diacritics`.
- `Classify`: `guess_initiative_type` and the stop-word cut.
- `Title`: `clean_title`, as written and corrected.
- `Feedback`: `get_feedback_times`.
- `Contacts`: `get_contacts`.
- `Scan`: how a `findall` list relates to the search it repeats.
- `Documents`: `extract_documents`.

Three behaviours of the code are worth stating on their own:

- **All-single-letter titles.** A title made only of single letters is not merged, because `idx` stays 0: `Title.AllSingleLettersKept`.
- **E-mail deduplication.** The text is lowercased before the addresses are collected, so case variants of one address become the same address: `Contacts.EmailsLowercase`, `Contacts.ContactsIgnoreCase`.
- **Unparseable publication date.** `parse_date` raises `UnboundLocalError` on a text `%d.%m.%Y` rejects, because `date_obj` is never bound: `DateParser.ParseDate`.

## Model

| member | source | states |
|---|---|---|
| Text.Lower | scraper.py:142 | lowering keeps the length and maps every character on its own; whitespace and digits stay whitespace and digits, and no ASCII capital survives |
| Text.LowerIdempotent | scraper.py:245-250 | lowering twice equals lowering once, so text taken from the lowered body is already lower case |
| Text.StripLowerCommute | scraper.py:142 | the title's `lower().strip()` and the body's `strip().lower()` (lines 190, 245) give the same string |
| Text.StripSlice | scraper.py:190 | `strip()` removes exactly the leading whitespace run and the trailing whitespace run, and keeps what lies between |
| Text.StripLeadingSpace | scraper.py:142 | a leading space (as `clean_title` can produce) disappears under `strip()` |
| Text.WordsKeepContent | scraper.py:279 | `split()` loses no non-whitespace character: the words concatenated equal the text with its whitespace removed |
| Text.WordsOfJoin | scraper.py:285 | splitting a single-space join of words gives the words back |
| Text.FindFrom | scraper.py:144 | the search returns an occurrence, and no occurrence starts earlier |
| Text.ContainsIff | scraper.py:102 | `p in t` holds exactly when `p` occurs at some position of `t` |
| Text.LastOccurrence | scraper.py:46 | the greedy `.*` ends at the last occurrence of the closing words; none lies after it |
| Text.RemoveChar | scraper.py:210 | `replace("(", "")` leaves no `(`, only removes characters, changes nothing when there is none, and on one character removes it exactly when it is `(` |
| Text.RemoveCharAppend | scraper.py:210 | removal works piece by piece: removing from `a + b` is removing from `a` followed by removing from `b`, so with the one-character cases every other character is kept in order |
| Text.TakeUntil | scraper.py:210 | `split(" ")[0]` is the prefix up to the first space, and contains no space |
| Text.StripBytesSlice | scraper.py:212 | a byte string's `strip()` removes exactly the leading and trailing runs of `' '` and `\t`..`\r`, and keeps what lies between |
| Numerals.ParseInt | scraper.py:212 | `int()` succeeds only on text ending in a digit after stripping; text without digits is a `ValueError` |
| Numerals.ParseIntMeaning | scraper.py:212 | `int()` on a byte string succeeds exactly when the text stripped of `' '` and `\t`..`\r` is an optional sign, optional characters of that same whitespace after a sign, then one or more digits, and then gives the signed value of those digits |
| Numerals.UnitSeparatorRejected | scraper.py:212 | U+001F is no byte-string whitespace: `int()` of it followed by "10" is a `ValueError` |
| Numerals.ParseIntShowInt | scraper.py:212 | `int(str(n)) == n` for every integer, negative ones included |
| Calendar.Ordinal | scraper.py:239 | every valid date has an ordinal from 1 to 3652059, inside the range of its own year |
| Calendar.OrdinalFirstDay | scraper.py:239 | 1 January of year 1 has ordinal 1 |
| Calendar.NextDayInMonth | scraper.py:235-239 | the next day of the same month is valid and has the next ordinal |
| Calendar.NextDayNewMonth | scraper.py:235-239 | the first of the next month follows the last day of a month with the next ordinal |
| Calendar.NextDayNewYear | scraper.py:235-239 | 1 January follows 31 December of the year before with the next ordinal |
| Calendar.FromOrdinal | scraper.py:235 | every ordinal in range belongs to a valid date, and that date's ordinal is the one given |
| Calendar.OrdinalInjective | scraper.py:239 | different valid dates have different ordinals |
| Calendar.FromOrdinalOrdinal | scraper.py:235 | converting a date to its ordinal and back gives the date |
| Calendar.AddDays | scraper.py:235 | `date + timedelta(days=k)` succeeds exactly when the result stays in years 1..9999, and then moves the ordinal by `k` |
| Calendar.AddDaysBetween | scraper.py:239-240 | adding `(a - b).days` to `b` gives `a` |
| Calendar.BetweenAddDays | scraper.py:235-240 | the day difference between `b + k` and `b` is `k` |
| Calendar.IsoRoundTrip | scraper.py:269 | `isoformat()` reads back as the same date |
| Calendar.IsoInjective | scraper.py:269 | different dates have different ISO strings |
| Strptime.DayField | scraper.py:201 | `%d` reads a day from 1 to 31: every one- or two-digit text with a value in that range, and a space followed by a non-zero digit; the day read is the value of the digits |
| Strptime.MonthField | scraper.py:268 | `%m` reads exactly the one- or two-digit texts with a value from 1 to 12, giving that value |
| Strptime.YearField | scraper.py:201 | `%Y` reads exactly the four-digit texts, giving their value |
| Strptime.ParseNumeric | scraper.py:268 | a `%d.%m.%Y` parse gives a valid date whose day, month and year are what `%d`, `%m` and `%Y` read from the text around two dots, and the text holds only digits, dots and spaces |
| Strptime.ParseNumericOfFields | scraper.py:268 | texts the three fields read, joined by dots, parse to their date when it exists and to nothing when it does not |
| Strptime.ParseNumericRoundTrip | scraper.py:268 | every valid date written as `DD.MM.YYYY` parses back to itself |
| Strptime.MonthNumber | scraper.py:49 | `%B` accepts a token exactly when its lower case is one of the twelve English month names, and gives that month |
| Strptime.ParseNamed | scraper.py:201 | a `%d %B %Y` parse gives a valid date whose day, month and year are what `%d`, `%B` and `%Y` read from the text around two runs of whitespace |
| Strptime.ParseNamedOfFields | scraper.py:201 | texts the three fields read, with whitespace between them, parse to their date when it exists and to nothing when it does not |
| Strptime.ParseNamedRoundTrip | scraper.py:201 | every valid date written as `DD monthname YYYY` parses back to itself |
| Strptime.FormatsExclusive | scraper.py:199-205 | no text parses under both formats, so the missing `break` in the format loop never matters |
| Strptime.ParseEither | scraper.py:199-205 | the loop finds a date exactly when one of the formats parses, and then it is that format's date |
| DateParser.ParseDate | scraper.py:266-272 | the result is a date exactly when `%d.%m.%Y` parses; its ISO string has length 10 and reads back as the same date; any other input raises `UnboundLocalError` |
| DateParser.ParseDateRoundTrip | scraper.py:266-272 | every valid date written as `DD.MM.YYYY` yields itself and its ISO string |
| DateParser.ParseDateIsoIff | scraper.py:269 | two parsed dates have equal ISO strings exactly when they are equal dates |
| Diacritics.DiacriticsWellFormed | scraper.py:51-60 | no two rules share a character, and no replacement letter is itself replaced by a rule |
| Diacritics.Lookup | scraper.py:51-60 | a character has a replacement exactly when some rule's class lists it, and the replacement is the plain letter of the first rule that lists it |
| Diacritics.ReplaceUpToAt | scraper.py:85 | one `re.sub` with count 32 replaces a class character exactly when fewer than 32 class characters come before it |
| Diacritics.ReplaceUpToCount | scraper.py:85 | after one `re.sub`, `max(0, c - 32)` class characters remain, where `c` is the number there were |
| Diacritics.ReplaceUpToOther | scraper.py:85 | characters outside the class are not touched |
| Diacritics.TablePass | scraper.py:84-85 | the rule table keeps the text's length |
| Diacritics.TablePassChanges | scraper.py:84-85 | each character either stays or becomes the replacement its rule names |
| Diacritics.TablePassCount | scraper.py:84-85 | for each rule only the first 32 occurrences are replaced, so `max(0, c - 32)` of its class remain |
| Diacritics.TablePassKeeps | scraper.py:84-85 | characters no rule lists are counted the same before and after |
| Diacritics.TablePassComplete | scraper.py:84-85 | when no class occurs more than 32 times, every listed character becomes its plain letter and every other character stays |
| Diacritics.NoDiacriticsLeft | scraper.py:77-86 | under the same bound, no listed diacritic survives the table |
| Classify.FirstMatch | scraper.py:101-103 | the first rule whose search string occurs in the text; no earlier rule's search string occurs |
| Classify.Classify | scraper.py:101-105 | the answer is "OTHER" or the type of one of the rules |
| Classify.ClassifyFirstRule | scraper.py:101-103 | when rule `k` matches and no earlier rule does, the answer is rule `k`'s type |
| Classify.ClassifyOtherIff | scraper.py:104-105 | the answer is "OTHER" exactly when no search string occurs |
| Classify.ClassifyLabels | scraper.py:15-25 | with the scraper's table the answer is one of OTHER, LEGE, HG, OG, OUG, OM |
| Classify.HotarareRulesRedundant | scraper.py:15-25 | dropping "hotarare de guvern" and "hotarare a guvernului" from the table changes no answer, because "hotarare" follows them with the same type |
| Classify.StopIndex | scraper.py:144 | the position of the first "pentru" or "privind"; neither occurs earlier |
| Classify.ArticleTypeNoStopWord | scraper.py:142-145 | a title without "pentru" or "privind" is typed "OTHER", whatever words it contains |
| Classify.ArticleTypeUsesPrefix | scraper.py:142-147 | otherwise only the lowered, stripped title before the stop word is classified |
| Title.FirstLong | scraper.py:278-283 | `idx` is the first word longer than one character, or 0 when no word is long |
| Title.CleanTitleShape | scraper.py:278-286 | with `idx == 0` the result is a space followed by the single-space join of the words; otherwise its words are the merged letters followed by the remaining words |
| Title.AllSingleLettersKept | scraper.py:278-286 | a title made only of single letters keeps all its words; nothing is merged |
| Title.CleanTitleKeepsContent | scraper.py:274-286 | both versions keep every non-whitespace character in order |
| Title.CleanTitleNotIdempotent | scraper.py:285 | "H O TARE" becomes "HO TARE", and cleaning that again adds a leading space |
| Title.FixedIsStripped | scraper.py:285 | the corrected version equals the as-written result with its whitespace stripped |
| Title.FixedNoLeadingSpace | scraper.py:285 | the corrected result never starts with whitespace |
| Title.FixedIdempotent | scraper.py:285 | the corrected version applied twice equals it applied once |
| Title.TypeUnaffectedByFix | scraper.py:139-147 | the leading space does not change the instrument type, since the title is stripped before classifying |
| Feedback.Phrase | scraper.py:192 | the deadline phrase exists exactly when the cue occurs; it starts with the cue and does not cross a newline |
| Feedback.PhraseFirstLine | scraper.py:192 | the phrase starts at the first occurrence of the cue and runs to the end of that line |
| Feedback.NumericDateSound | scraper.py:45 | a match of the first alternative has the layout one or two digits, dot, one or two digits, dot, `20` and two digits, and ends after the year |
| Feedback.NumericDateComplete | scraper.py:45 | wherever that layout occurs, the first alternative matches there, to the end of the year |
| Feedback.NamedDateSound | scraper.py:45 | a match of the second alternative has the layout one or two digits, one whitespace character, the whole run of lower-case letters, one whitespace character, `20` and two digits, and ends after the year |
| Feedback.NamedDateComplete | scraper.py:45 | wherever that layout occurs, the second alternative matches there, to the end of the year |
| Feedback.AlternativesExclusive | scraper.py:45 | the two alternatives never both match at one place |
| Feedback.DateAtAlternatives | scraper.py:45 | a date matches where either alternative does, and records which one and where it ends |
| Feedback.SearchDate | scraper.py:196 | the leftmost date match; no match starts earlier |
| Feedback.FindAllDates | scraper.py:223 | `findall` gives non-overlapping matches in order, each a real match, and none exactly when the search finds none |
| Feedback.FindAllDatesChain | scraper.py:223 | the first match is the first search's, each next one is the search from where the previous ended, and the search after the last finds nothing, so no match is skipped |
| Feedback.DaysMatch | scraper.py:208 | the days match starts with `(` and ends with "de la publicare)" |
| Feedback.DaysMatchSpan | scraper.py:208 | the days match runs from the line's first `(` to the end of the last "de la publicare)", which lies after it |
| Feedback.DaysMatchExists | scraper.py:208 | a `(` anywhere before an occurrence of "de la publicare)" is enough for a days match |
| Feedback.DaysToken | scraper.py:210 | once every `(` is removed, the token is the text up to the first space, or all of it when there is no space |
| Feedback.DaysIn | scraper.py:208-215 | the days are `int()` of the token exactly when there is a days match, and absent otherwise |
| Feedback.Tier1 | scraper.py:190-215 | without a "data limita" line nothing is found; any date found is valid |
| Feedback.Tier1UsesFirstMatch | scraper.py:192-215 | with a "data limita" line, the days are those of its days match and the date is the first date match of the line parsed by both formats |
| Feedback.Tier2 | scraper.py:217-231 | without a "perioada consultare publica" line no date is found; any date found is valid |
| Feedback.Observe | scraper.py:217 | the days always come from the first tier; any date is valid |
| Feedback.Tier2OnlyWhenNeeded | scraper.py:217 | the second tier runs only when the first found neither truthy days nor a date |
| Feedback.Tier2UsesLastMatch | scraper.py:223-231 | the second tier parses only the last date match of its line, and only if that match is numeric |
| Feedback.NumericMatchParse | scraper.py:196-205 | a numeric date match is read by `%d.%m.%Y` alone |
| Feedback.NoDotNotNumeric | scraper.py:199-205 | text without a dot never parses as `%d.%m.%Y` |
| Feedback.EmptyGroupUnparsed | scraper.py:227 | the empty group a named last match leaves behind parses as nothing |
| Feedback.ForeignMonthRejected | scraper.py:196-205 | a named date whose month word is not an English month name yields no date |
| Feedback.AprilieNotMonth | scraper.py:199-205 | the Romanian "aprilie" is not an English month name, so `%B` rejects it |
| Feedback.EnglishMonthAccepted | scraper.py:49 | "07 april 2017" parses to 7 April 2017 |
| Feedback.DaysOfTypicalLine | scraper.py:208-215 | "(10 zile de la publicare)" yields 10 days |
| Feedback.Reconcile | scraper.py:233-240 | raises `OverflowError` only when days alone are found and `publish + days` leaves the calendar; found days and dates are kept; when only one was found the other is derived so that `publish + days` is the deadline day; when neither was found no date is produced |
| Feedback.GetFeedbackTimes | scraper.py:186-242 | only `OverflowError` can escape; a text with neither cue yields no days and no date |
| Contacts.EmailAt | scraper.py:28 | an e-mail match has the local part, `@`, domain, dot and a 2-5 character ending of the pattern, and the ending is as long as the pattern allows |
| Contacts.EmailComplete | scraper.py:28 | wherever an address of the pattern's shape starts, the match there has the same local part and domain and an ending at least as long |
| Contacts.SearchEmail | scraper.py:249 | the search returns a real match at or after the start |
| Contacts.SearchEmailLeftmost | scraper.py:249 | no e-mail match starts before the one found |
| Contacts.FindEmails | scraper.py:249 | `findall` gives non-overlapping matches in order, each of the e-mail shape |
| Contacts.FindEmailsChain | scraper.py:249 | the first match is the first search's, each next one is the search from where the previous ended, and the search after the last finds nothing |
| Contacts.PhoneWith | scraper.py:27 | a telephone match for one keyword has the keyword, 1 to 10 non-digits, then a 10 to 13 character run of digits, spaces and dots that starts and ends with a digit |
| Contacts.PhoneWithComplete | scraper.py:27 | wherever a keyword is followed by that shape, the match for the keyword starts its number at the same place and ends it no earlier: the number is the longest the pattern allows |
| Contacts.PhoneAt | scraper.py:27 | the match at a position has a keyword key and the telephone shape |
| Contacts.PhoneAtOrder | scraper.py:27 | the keywords are tried in the order fax, telefon, tel: the first one for which the rest matches wins |
| Contacts.TelefonGluedFallsBack | scraper.py:27 | "telefon" followed directly by a digit is matched with key "tel"; the rest of the word is the gap before the number |
| Contacts.SearchPhone | scraper.py:252 | the search returns a real match at or after the start |
| Contacts.SearchPhoneLeftmost | scraper.py:252 | no telephone match starts before the one found |
| Contacts.FindPhones | scraper.py:252 | `findall` gives non-overlapping matches in order, each with a keyword key |
| Contacts.FindPhonesChain | scraper.py:252 | the first match is the first search's, each next one is the search from where the previous number ended, and the search after the last finds nothing |
| Contacts.NumberValue | scraper.py:255 | the value is the digits of the number, in order: spaces and dots are removed and nothing else |
| Contacts.PhoneEntries | scraper.py:252-255 | there is one entry per number found; every entry has a keyword key and an all-digit value |
| Contacts.PhoneEntriesOf | scraper.py:252-255 | entry `k` is the keyword of the `k`-th number found and that number's digits |
| Contacts.Collect | scraper.py:253-259 | the mapping is built exactly when no key repeats, otherwise `push` raises `AttributeError`; its keys are the entries' keys |
| Contacts.CollectValues | scraper.py:253-259 | each key maps to the value of its entry |
| Contacts.GetContacts | scraper.py:244-264 | the contact record is built exactly when no telephone key repeats, otherwise `AttributeError` escapes |
| Contacts.GetContactsNumbers | scraper.py:252-262 | every number key is fax, telefon or tel, and every value is all digits |
| Contacts.ContactsIgnoreCase | scraper.py:245 | texts equal up to case give the same contacts |
| Contacts.EmailsLowercase | scraper.py:245-250 | every address found is already in lower case |
| Documents.ExtractDocuments | scraper.py:107-122 | the documents are listed exactly when every link has an `href`, otherwise `AttributeError` escapes; at most one document per link, and every document's URL ends in a listed extension |
| Documents.ExtractMembership | scraper.py:116-122 | a document is listed exactly when some link has its text and URL and the URL ends in a listed extension |
| Documents.ExtractAppend | scraper.py:116-122 | the generator works link by link: the documents of two link lists together are the documents of each, in order |
| Documents.ExtractIdempotent | scraper.py:116-122 | feeding the documents back in as links gives the same documents |
| Documents.UpperCaseEndingRejected | scraper.py:118 | the extension test is case-sensitive: "report.PDF" is not a document |

## Left out

- Crawling is not modelled: the scrapy spider and link extraction (`parse`), CSS and XPath selectors, `response.urljoin`, `json.dumps`, and the sqlite upsert. `text_from` is not modelled; the titles and texts it would produce are taken as inputs, already stripped where the code strips them. Together these are I/O and framework code.
- The `Publication` item and the field-by-field assembly in `parse_article` (lines 135-184) are not modelled. They only copy the modelled results into a record.
- Diacritics.StripDiacritics: `unidecode` is a parameter (`translit`), because its transliteration tables are an external library. The model proves facts about the rule table that runs before it.
- Classify.GuessInitiativeType: the same `translit` parameter stands for `unidecode`.
- Text.Lower: covers ASCII, Latin-1 and the Romanian letters only. Other scripts' case mappings are left unchanged, because the full Unicode case table is outside the scope of this model.
- Text.Strip: the body's `strip()` (lines 190, 245) and its `lower()` are modelled with unicode whitespace and case tables, although the body is the byte string `unidecode` returns. The only difference on such text is U+001C..U+001F at its ends, which no pattern of the scraper matches, so no result changes.
- Contacts.GetContacts: the e-mail addresses are kept as a set. `','.join(list(set(emails)))` depends on hash order, which is not modelled. A number key can only hold one value, because a second one raises, so its comma join is the value itself.
- Feedback.GetFeedbackTimes: the publication date is a valid date, never `None`. Its only caller raises in `parse_date` first when the date does not parse.
- Feedback.Reconcile: a deadline computed from days is an ISO string (`Deadline.IsoDate`) and a parsed one is a date (`Deadline.ParsedDate`), as in the code. The string-versus-`datetime` subtraction that could follow is not reachable, because days are always known when the string is produced.
- Calendar.AddDays: `timedelta`'s own bound of 999999999 days is folded into the `OverflowError` the date addition raises, which any larger count also hits.
- Strptime.MonthNumber: `%B` uses a fixed English month table. The C locale is assumed, because the locale is process state.
- Feedback.DaysOfTypicalLine: proved only for lines whose text after the days phrase contains no letter `d`. With a `d` there, a later "de la publicare)" could end the match.
- Diacritics.TablePassComplete: holds only when no class occurs more than 32 times. Beyond that the count argument stops `re.sub`, and Diacritics.TablePassCount states what remains.

## Findings

| source | as written | input that shows it | evidently intended | confidence | as-written member | corrected member |
|---|---|---|---|---|---|---|
| scraper.py:285 | the merged prefix and the rest are always joined by a space, so when nothing was merged (`idx == 0`) the title gains a leading space and cleaning is not idempotent | "H O TARE" cleans to "HO TARE", which cleans to " HO TARE" | the separator only when letters were merged, so a clean title cleans to itself | not executed | Title.CleanTitleNotIdempotent | Title.FixedIdempotent |
