# Planity daily appointment scraper — Dafny model

`scraper.py` logs into the Planity back office and walks today's agenda. It
opens each appointment and reads the overlay's fields into a record. It
then posts the day's records, with a count and a revenue total, to an n8n
webhook. This project models that pipeline as Dafny functions and methods
and proves what it does with the text it reads. Nothing here drives a
browser: what the page shows is an input.

- `PyText`, `PyNumbers` (`pytext.dfy`, `pynumbers.dfy`): the Python
  operations the scraper relies on. These are `str.strip()`, `str.replace`,
  `str.split` on one character, the `in` substring test, `int()` and
  `float()` on decimal text.
- `Fields` (`fields.dfy`): how one overlay field becomes a value:
  - the duration grammar ("50min", "1h30", "2h");
  - the price normalisation ("12,50 €");
  - the sex toggle-button search;
  - the postal-code fallback;
  - the plain text fields.
- `Extraction` (`extraction.dfy`): `extract_rdv_data`. The method
  `ExtractRdvData` follows the source's field-by-field updates of the
  default record. It is proved equal to the function `Extract`, about which
  the acceptance rule and the field-locality properties are proved.
- `Collection` (`collection.dfy`): `get_today_appointments`. The method
  `GetTodayAppointments` runs the candidate loop with its two exception
  exits. It is proved equal to `Collect(Outcomes(...))`, about which order,
  membership and skipping are proved.
- `Report` (`report.dfy`): the payload built by `send_to_n8n`. Its count is
  the number of records and its revenue is the left-to-right `sum` of their
  prices.
- `Run` (`run.dfy`): `main`. The settings gate comes first. An exception
  while starting the driver, filling in the login form or loading the
  agenda ends the run without a report; a rejected login is not detected,
  since `login_planity` never checks that the credentials were accepted. Otherwise the day's report is sent, an empty one when nothing was
  found. The method `Scrape` is proved equal to the function `RunDay`.

Two behaviours of the code are worth stating plainly:
- The comment at scraper.py:123 names four categories
  (Femme/Homme/Enfant/Autre), but line 128 stores the active button's text
  as displayed, so the sex value is whatever text the button shows.
- Nothing in the code clamps a duration or a price: a text with a minus
  sign gives a negative value (see `NegativeDurationKept` and
  `NegativePriceKept`), so non-negativity is proved only for texts without
  a minus sign.

## Model

| member | source | states |
|---|---|---|
| PyText.Strip | scraper.py:119 | the stripped text has no whitespace at either end, and a text already without it is returned unchanged |
| PyText.StripInfix | scraper.py:119 | the stripped text is one stretch of the original with only whitespace removed before and after it |
| PyText.StripChars | scraper.py:119 | every character of the stripped text comes from the text, and every character dropped is whitespace |
| PyText.StripTrailingSpace | scraper.py:172 | stripping a trimmed text followed by one space gives the text back |
| PyText.Replace | scraper.py:172 | after replacing a one-character pattern by text that does not hold it, the pattern no longer occurs |
| PyText.ReplaceChars | scraper.py:172 | replacing introduces no characters other than those of the text and of the replacement |
| PyText.ReplaceKeeps | scraper.py:160 | a character outside the pattern survives the replacement |
| PyText.ReplaceFreePrefix | scraper.py:172 | a prefix in which the pattern cannot start is copied unchanged |
| PyText.ReplaceOnce | scraper.py:172 | a single comma between comma-free stretches becomes the point there and nowhere else |
| PyText.ContainsIff | scraper.py:127 | `sub in s` holds exactly when some position of the text starts a copy of `sub`, and is false when none does |
| PyText.ContainsSuffix | scraper.py:127 | a class text that ends with "active" passes the substring test |
| PyText.Split | scraper.py:160 | splitting on "h" gives one more piece than there are separators, and no piece holds the separator |
| PyText.JoinSplit | scraper.py:160 | joining the pieces with the separator gives the text back, so splitting loses nothing |
| PyText.SplitChars | scraper.py:160 | every character of every piece comes from the text |
| PyText.CountPositive | scraper.py:159-160 | a separator occurs in the text exactly when it is counted at least once |
| PyText.SplitNoSeparator | scraper.py:160 | a text without the separator is a single piece |
| PyText.SplitFirst | scraper.py:160 | the first separator ends the first piece and the rest is split as it stands |
| PyNumbers.ParseIntSign | scraper.py:161-165 | `int()` raises on blank text, and a text without a minus sign is read as a number that is not negative |
| PyNumbers.ParseIntDigits | scraper.py:161-165 | `int()` of a digit string is its decimal value, leading zeros included |
| PyNumbers.DecimalValue | scraper.py:173 | the value of `whole.frac` lies between `whole` and `whole + 1` |
| PyNumbers.ParseFloatSign | scraper.py:173 | `float()` raises on blank text, and a text without a minus sign is read as a number that is not negative |
| PyNumbers.ParseFloatDecimal | scraper.py:173 | `float(whole + "." + frac)` is the exact decimal value of the digits |
| PyNumbers.ParseFloatWhole | scraper.py:173 | `float()` of a digit string is its integer value |
| PyNumbers.ParseFloatNegated | scraper.py:173 | `float()` of a minus sign and digits is the negated value |
| Fields.TextOr | scraper.py:117-121 | a text field is the element's stripped text, or "" when the element is missing |
| Fields.HourGrammarHasMinutesPiece | scraper.py:159-162 | in the hour grammar the split always yields at least two pieces, so the `len(parts) > 1` guard never fails there |
| Fields.PiecesNonNegative | scraper.py:160-163 | hour and minute pieces without a minus sign give a duration that is not negative |
| Fields.DurationNonNegative | scraper.py:155-167 | a duration text without a minus sign never gives a negative duration |
| Fields.NegativeDurationKept | scraper.py:164-165 | "-5" is read as -5 minutes: nothing clamps the duration at 0 |
| Fields.HoursFromPieces | scraper.py:161-163 | the hour grammar is hours times 60 plus minutes, from the first two pieces |
| Fields.DurationMinutes | scraper.py:164-165 | digits alone or followed by "min" are read as that many minutes |
| Fields.DurationHoursMinutes | scraper.py:159-163 | hours, "h", then minutes, with or without a final "min", give 60 times the hours plus the minutes |
| Fields.DurationWholeHours | scraper.py:159-163 | whole hours with nothing after the "h" give 60 times the hours, since the empty minutes piece counts as 0 |
| Fields.DurationIgnoresLaterPieces | scraper.py:160-163 | pieces after a second "h" are ignored |
| Fields.FiftyMinutesExample | scraper.py:158-165 | "50min" is 50 minutes |
| Fields.HourThirtyExample | scraper.py:158-163 | "1h30" is 90 minutes |
| Fields.HourThirtyMinExample | scraper.py:158-163 | "1h30min" is 90 minutes |
| Fields.TwoHoursExample | scraper.py:159-163 | "2h" is 120 minutes |
| Fields.NormalisedPriceText | scraper.py:172 | the normalised price text is trimmed, holds no euro sign and no comma, and adds no character except the point |
| Fields.PriceNonNegative | scraper.py:170-175 | a price text without a minus sign never gives a negative price |
| Fields.NegativePriceKept | scraper.py:170-175 | "-3" is read as -3.0: nothing clamps the price at 0 |
| Fields.DropEuroSuffix | scraper.py:172 | a final euro sign is removed and nothing else |
| Fields.CommaToPoint | scraper.py:172 | the decimal comma of "E,CC " becomes a point and nothing else changes |
| Fields.EuroSuffixNormalised | scraper.py:172 | for a text ending in "€", normalisation drops the sign, then turns commas into points, then strips |
| Fields.CommaPriceText | scraper.py:172 | "E,CC €" normalises to "E.CC" |
| Fields.PriceWithComma | scraper.py:172-173 | a French-formatted price "E,CC €" is E plus CC read as a decimal fraction |
| Fields.WholePriceText | scraper.py:172 | "E €" normalises to "E" |
| Fields.PriceWholeEuros | scraper.py:172-173 | a whole-euro price "E €" is E |
| Fields.CommaPriceExample | scraper.py:172-173 | "12,50 €" is 12.5 |
| Fields.TwelveFifty | scraper.py:173 | the decimal 12.50 is 12.5 |
| Fields.WholePriceExample | scraper.py:172-173 | "8 €" is 8.0 |
| Fields.SexOfFirstActive | scraper.py:124-131 | the sex is the stripped text of the first active button when every button before it has a class and is inactive |
| Fields.SexOfNoneActive | scraper.py:124-131 | with no such first active button the sex stays "Autre" |
| Fields.InactiveClassIsSelected | scraper.py:127 | a button whose class is "inactive" passes the substring test and is chosen ahead of a later active one |
| Fields.SelectSex | scraper.py:124-131 | the button loop, with its `break` and its exception exit on a missing class, gives exactly the search result |
| Fields.PostalCode | scraper.py:134-138 | a non-empty `value` attribute wins unstripped, otherwise the code is the element's stripped text; the code is empty exactly when the value is missing or empty and the stripped text is empty |
| Extraction.DefaultRecord | scraper.py:103-114 | the starting record carries the day, empty texts, sex "Autre", duration 0, price 0.0 and status "Honoré" |
| Extraction.ExtractRdvData | scraper.py:98-187 | the field-by-field updates, each skipped when its lookup or conversion raises, yield exactly the extraction's result |
| Extraction.AcceptedIff | scraper.py:184-187 | a record is returned exactly when the client or the service element holds non-blank text |
| Extraction.AcceptedShape | scraper.py:184-187 | a returned record carries the day, status "Honoré", and a non-empty client or service |
| Extraction.EmptyModalRejected | scraper.py:116-187 | an overlay where nothing is found gives no record |
| Extraction.UnparseableDurationIsMissing | scraper.py:154-167 | a duration text that does not parse has the same effect as a missing duration element |
| Extraction.UnparseablePriceIsMissing | scraper.py:169-175 | a price text that does not parse has the same effect as a missing price element |
| Extraction.DurationOnlyAffectsDuration | scraper.py:154-167 | another duration text changes the record's duration and nothing else, and not its acceptance |
| Extraction.PriceOnlyAffectsPrice | scraper.py:169-175 | another price text changes the record's price and nothing else, and not its acceptance |
| Extraction.SexOnlyAffectsSex | scraper.py:123-131 | other sex buttons change the record's sex and nothing else, and not its acceptance |
| Extraction.RecordDurationNonNegative | scraper.py:154-167 | with no minus sign in the duration text, an accepted record's duration is not negative |
| Extraction.RecordPriceNonNegative | scraper.py:169-175 | with no minus sign in the price text, an accepted record's price is not negative |
| Collection.Visit | scraper.py:72-94 | a visit yields a record exactly when the click succeeds and extraction accepts the overlay, and then it is the extracted record |
| Collection.Outcomes | scraper.py:68-72 | there is one outcome per agenda element, in order |
| Collection.GetTodayAppointments | scraper.py:56-96 | the loop collects exactly the accepted records in agenda order; a failed click skips the element and a failed close keeps the record |
| Collection.CollectStep | scraper.py:79-81 | one more element appends its record, if it has one, to those of the elements before it |
| Collection.CollectAppend | scraper.py:72-94 | collecting over two stretches of the agenda collects each in turn |
| Collection.CollectMembership | scraper.py:79-81 | a record is collected exactly when some visit accepted it |
| Collection.CollectLength | scraper.py:72-94 | at most one record is collected per agenda element |
| Collection.AllAccepted | scraper.py:72-94 | when every visit is accepted, the records are one per element, in the same order |
| Collection.NoneAccepted | scraper.py:72-94 | when no visit is accepted, nothing is collected |
| Collection.OutcomesAppend | scraper.py:72 | the outcomes of a stretch of elements are those of its parts |
| Collection.SkippedCandidate | scraper.py:92-94 | an element whose click fails or whose overlay is rejected leaves the records as they would be without it |
| Collection.CollectedRecords | scraper.py:79-81 | every collected record carries the agenda's day, status "Honoré" and a client or service, and comes from a successful click on some element |
| Report.SumFromTotal | scraper.py:199 | the left-to-right running sum ends at its start value plus the revenue |
| Report.MakePayload | scraper.py:196-201 | the payload carries the date and the records unchanged and in order; its count is their number and its revenue the sum of their prices |
| Report.TotalAppend | scraper.py:199 | the revenue of two lists of records together is the sum of their revenues |
| Report.TotalNonNegative | scraper.py:199 | with no negative price the revenue is not negative |
| Report.EmptyPayload | scraper.py:236-239 | the empty report has no records, a count of 0 and no revenue |
| Run.Scrape | scraper.py:213-245 | `main` as a sequence of steps gives exactly the run's result |
| Run.ConfigGate | scraper.py:217-222 | the run stops at the settings check exactly when a setting is unset or empty, and then reports which ones |
| Run.CrashIff | scraper.py:225-242 | the run ends without a report exactly when the settings pass and starting the driver, the login form or the agenda lookup raises |
| Run.EmptySettingStops | scraper.py:217 | an empty setting stops the run just as an unset one does |
| Run.SendsCollectedReport | scraper.py:228-239 | once the browser steps succeed, both branches of `if rdvs` send the report of the collected records |
| Run.EmptyDaySendsEmptyReport | scraper.py:236-239 | a day where no element yields a record sends a report with no records, count 0 and revenue 0 |
| Run.EveryCandidateReported | scraper.py:228-231 | when every element yields a record, the report holds one per element in agenda order, counts them all and sums their prices |
| Run.SentRecordsAreAccepted | scraper.py:213-231 | every record sent carries the agenda's day, status "Honoré" and a client or service; the report is dated with `main`'s day |
| Run.RevenueNonNegative | scraper.py:199-231 | with no minus sign in any price text, the revenue sent is not negative |

## Left out

- Browser automation is an input rather than modelled: the Chrome driver and its options (lines 19-28), the login form (lines 30-54), CSS selectors, waits and sleeps. The agenda's elements and what each overlay shows are data (`Browser`, `Candidate`, `Modal`), and "raises" is a flag or a missing value.
- The HTTP POST to the webhook (lines 203-211) and its status code are left out. A run that reaches `send_to_n8n` is modelled as `Sent` with the payload, whether or not the request succeeds.
- Reading the environment, the clock and `print` output are left out. The settings are an `Env` value. The two clock reads (lines 59 and 214) are two independent day parameters, since a run can cross midnight.
- The outer `except` of `extract_rdv_data` (lines 189-191) is not modelled: every step inside it that can raise on the modelled inputs is guarded by its own `except`; `WebDriverWait(driver, 5)` (line 100) and the acceptance test (lines 185-187) are not expected to raise and are modelled as not raising. `driver.quit()` in `finally` (lines 243-245) has no observable effect on the result.
- PyNumbers.ParseFloat: models decimal notation with an optional sign and at most one point, as an exact real. Exponents, "inf"/"nan", underscores between digits, non-ASCII decimal digits (which Python's `float()` accepts as `int()` does) and binary floating-point rounding are not modelled.
- PyNumbers.ParseInt: underscores between digits and non-ASCII decimal digits, which Python's `int()` also accepts, are not modelled.
- Report.MakePayload: Python's `sum` of an empty list is the integer 0, which serialises as `0`. The model uses the real 0.0 throughout. Each float addition of the `sum` at line 199 is rounded to a binary float, while `Total` and `SumFrom` add exact reals.
- Fields.SelectSex: a raise from reading `aria-selected` or a button's text is not modelled separately. Only the missing `class` attribute raises in the model.
