# Zruby Oščadnica booking site: a Dafny model of its scripts

The site has three browser scripts. This project models their logic.

- **js/form.js** runs the reservation form. It validates a field on `blur`
  and the whole form on `submit`. It keeps checkout after checkin and drives
  the submit button through its busy and idle states. It also shows the
  outcome banner.
- **js/gallery.js** runs the photo gallery. It has a filter bar that shows
  one category at a time and a lightbox that pages through the images.
- **js/main.js** holds the shared helpers: `formatDate`, `isPastDate`,
  highlighting the current page in the navigation, `throttle`, the hamburger
  menu and the sticky header.

Each piece takes the form of the code it models:

- Rules that only compute are functions, and lemmas state what they mean.
  These are the `validateField` rule chain, the e-mail and phone patterns,
  the capacity ceilings, the date-range comparison, page matching and date
  formatting.
- State the scripts change in place is a class, with each handler a method.
  These are the form groups, the submit button, the banner, the lightbox
  index, the filter bar's classes, the throttle's `lastCall` and the menu
  and header flags.

The model abstracts the environment as follows:

- **Dates.** A calendar date is its day number, counted in days since
  1970-01-01. That is the time value of `new Date('YYYY-MM-DD')` divided by
  one day.
- **Today.** "Today" is a parameter.
- **Invalid Date.** A text that is no date-only ISO string is an Invalid
  Date, modelled as `None`. Every comparison with it is false.
- **`parseInt`.** It follows section 19.2.5 of ECMA-262. A text without
  digits is NaN, modelled as `None`, and NaN passes the number rule because
  `NaN < 1` is false.
- **White space.** It is the WhiteSpace and LineTerminator set that `\s`
  and `trim` use.
- **Timers.** Each timer callback is a method of its own, which a caller
  runs when the timer fires. These are `CompleteSubmission`,
  `SuccessBannerExpires` and `ErrorBannerExpires`.

Three behaviours of the code are easy to miss:

- The e-mail rule accepts any character other than white space and `@` in
  its three parts. It is not limited to ASCII.
- A number field whose text has no digits is accepted.
- No failure path of the submission exists. Only the simulated success is
  ever run.

Each field's `.form-group` is an index into the form's groups, and several
fields may share one group. The checks write their verdicts to the group in
document order, so a later verdict overwrites an earlier one in the same
group:

- The date-range check runs after the field checks and writes to the
  checkout's group. A checkout that fails its own rule but is after checkin
  therefore ends up without the error mark, although the form is rejected.
  This is stated as `FormController.CheckoutVerdictOverwritten`.
- Of two required fields in one group, only the later one's verdict is
  shown. This is stated as `FormController.SharedGroupHidesEarlierError`.

The capacity rule reads the element whose `id` is "accommodation", not a
field of that name.

## Model

| member | source | states |
|---|---|---|
| Text.TrimStart | js/form.js:72 | the result is a suffix of the input, everything dropped is white space, and it starts with a non-white-space character |
| Text.TrimEnd | js/form.js:72 | the result is a prefix of the input, everything dropped is white space, and it ends with a non-white-space character |
| Text.Trim | js/form.js:72 | `trim()` is empty exactly when the value is all white space; otherwise it starts and ends with a non-white-space character |
| Text.TrimIsSlice | js/form.js:72 | what `trim()` keeps is a contiguous slice of the value with only white space before and after it |
| Text.StripWhitespace | js/form.js:85 | `replace(/\s/g, '')` leaves no white space and never lengthens the text |
| Text.StripWhitespaceConcat | js/form.js:85 | stripping distributes over concatenation |
| Text.StripWhitespaceKeeps | js/form.js:85 | a text without white space is left unchanged |
| Text.NatToString | js/gallery.js:160 | the decimal text of a number is a non-empty digit string with no leading zero, one character long exactly below 10 |
| Text.NatToStringValue | js/gallery.js:160 | reading the decimal text of `n` back as digits gives `n` |
| Text.NatToStringLength | js/main.js:186-187 | a number with k digits renders as k characters |
| Text.NatToStringOfDigits | js/main.js:186-188 | conversely, a digit string without a leading zero is exactly what `String` writes for its value, and its length is that value's digit count |
| Text.IntToString | js/main.js:189 | `String(i)` starts with '-' exactly for negative `i`, followed by the digits of its magnitude |
| Text.PadStart | js/main.js:186-187 | `padStart(w, fill)` has length max(len, w), ends with the text and fills the front with `fill` |
| Text.PadStartValue | js/main.js:186-187 | zero-padding a digit string keeps it a digit string of the same value |
| Text.DigitRun | js/form.js:92 | `parseInt` reads the longest run of digits at the front, stopping at the first non-digit |
| Text.LeadingValue | js/form.js:92 | `parseInt` gives NaN exactly when no digit follows the sign and prefix |
| Text.ParseUnsignedDigits | js/form.js:92 | `parseInt` of a decimal digit string is its value |
| Text.ParseNegatedDigits | js/form.js:92 | `parseInt` of '-' and a digit string is the negated value |
| Text.IntToStringParses | js/form.js:92 | `parseInt(String(i)) == i` for every integer |
| Text.ParseDigitsThenText | js/form.js:92 | `parseInt` of digits followed by text that starts with a non-digit reads the digits and ignores the rest, "12x" included; only "0" followed by `x` or `X` is excepted |
| Text.ParseInt | js/form.js:92 | defines `parseInt`: leading white space skipped, one sign, `0x` for base 16, then the longest digit run, NaN without one; its meaning is stated by the `Parse…` lemmas above and `IntToStringParses` |
| Dates.DaysInMonth | js/form.js:109 | months have 28 to 31 days, and February has 29 exactly in leap years |
| Dates.NextDate | js/form.js:182-183 | `setDate(getDate() + 1)` on a valid date gives a valid date |
| Dates.NextDateIsNextDay | js/form.js:182-184 | the next calendar date has the next day number |
| Dates.DayNumber | js/form.js:144-151 | defines the time value of `new Date('YYYY-MM-DD')` divided by one day, counted from 1970-01-01; `DayNumberOrder` states that comparing it is comparing dates in calendar order, and `NextDateIsNextDay` that consecutive dates differ by one |
| Dates.DayNumberOrder | js/form.js:151 | comparing two dates' time values is comparing them in calendar order, in both directions |
| Dates.IsPastDate | js/main.js:198-203 | defines `isPastDate` (and the date rule of js/form.js:108-115): the text reads as a day strictly before today, and an unreadable text is never past; `Navigation.FormattedDateIsPast` and `FormRules.DateRule` state what it decides |
| Dates.ParseIsoDate | js/form.js:109 | `new Date(s)` yields a date only for a ten-character text with '-' at positions 4 and 7 |
| FormRules.MatchesEmailPattern | js/form.js:77 | defines what `/^[^\s@]+@[^\s@]+\.[^\s@]+$/` matches: three non-empty runs of characters other than white space and '@', joined by '@' and '.'; the three lemmas below relate it to a plain rule |
| FormRules.IsValidEmail | js/form.js:76-80 | defines the plain e-mail rule that `FieldError` evaluates: no white space, exactly one '@' with text before it, and a dot with text on both sides after it; `EmailPatternIff` proves it agrees with the pattern on every text |
| FormRules.EmailPatternSound | js/form.js:76-80 | every text the e-mail pattern matches has no white space, exactly one '@' with text before it, and a dot inside the part after it |
| FormRules.EmailPatternComplete | js/form.js:76-80 | every text of that shape is matched by the pattern |
| FormRules.EmailPatternIff | js/form.js:76-80 | the e-mail pattern matches exactly the texts of that shape |
| FormRules.EmailExamples | js/form.js:76-80 | "a@b" is rejected and "a@b.cd" accepted |
| FormRules.MatchesPhonePattern | js/form.js:84 | defines what `/^(\+421|00421|0)?[0-9]{9}$/` matches: one of the prefixes "+421", "00421", "0" or none, then exactly nine ASCII digits; `PhonePatternShape` reads it from the end |
| FormRules.PhoneAccepted | js/form.js:85-86 | defines the phone check: the pattern applied to the value with every white-space character removed; `PhoneIgnoresWhitespace` and the two examples state what it decides |
| FormRules.PhonePatternShape | js/form.js:84 | the phone pattern matches exactly nine ASCII digits preceded by "+421", "00421", "0" or nothing |
| FormRules.PhoneIgnoresWhitespace | js/form.js:85-86 | white space inserted anywhere in a phone number does not change the verdict |
| FormRules.PrefixedDigitsAccepted | js/form.js:84-86 | any allowed prefix followed by nine digits is accepted |
| FormRules.ShortPhoneRejected | js/form.js:84-86 | "123" is rejected |
| FormRules.Ceiling | js/form.js:98-103 | defines the capacity table: 6 for "chata1", 4 for "chata2", 30 for "spolocenska", and no ceiling for any other or a missing choice; `NumberRule` states the verdict it leads to |
| FormRules.NumberError | js/form.js:91-105 | defines the number rule as written: below 1 fails, and for `persons` a number above the chosen accommodation's capacity fails with that capacity's message, which replaces the below-1 message; `NumberRule` states what it decides |
| FormRules.FieldError | js/form.js:66-116 | defines `validateField`'s chain: the first rule that applies (required, e-mail, phone, number, date) decides the error, and a field no rule applies to passes; the `…Rule` lemmas, `RequiredTakesPrecedence` and `OtherFieldsPass` state each branch |
| FormRules.RequiredTakesPrecedence | js/form.js:72-73 | a required field that is blank after trimming fails with the required message, whatever its type |
| FormRules.EmailRule | js/form.js:76-81 | a filled e-mail field passes exactly when the pattern matches, else fails with the e-mail message |
| FormRules.PhoneRule | js/form.js:83-89 | a filled phone field passes exactly when its stripped value matches, else fails with the phone message |
| FormRules.NumberRule | js/form.js:91-106 | a number passes exactly when it is at least 1 and, for `persons`, within the accommodation's ceiling (6, 4, 30); an excess over a ceiling reports the ceiling's message |
| FormRules.PersonsExamples | js/form.js:96-99 | for any persons number field, required or not, 7 persons in chata1 fail with the chata1 message and 6 pass |
| FormRules.DateRule | js/form.js:108-116 | a filled date fails exactly when it is a readable day strictly before today; today passes |
| FormRules.OtherFieldsPass | js/form.js:118-131 | a field that hits none of the rules passes |
| FormRules.FindByName | js/form.js:138-139 | the lookup returns the first field of that name, or none when there is none |
| FormRules.FindById | js/form.js:97 | `getElementById` returns the first field with that id, or none when there is none |
| FormRules.Accommodation | js/form.js:97 | defines `document.getElementById('accommodation')?.value` over the form's fields; what it yields is stated by `AccommodationById` |
| FormRules.AccommodationById | js/form.js:97 | the accommodation is `undefined` exactly when no field has the id "accommodation", and is otherwise the value of the first field that has it |
| FormRules.DateRange | js/form.js:137-151 | a verdict, when there is one, is about the checkout field; with no checkin or no checkout field there is nothing to check |
| FormRules.DateRangeRule | js/form.js:141-151 | the range fails exactly when both dates are readable and checkout is not after checkin; an empty date skips the check |
| FormRules.FormIsValid | js/form.js:45-61 | defines when `validateForm` accepts: every required field passes its rule and the date range is not out of order; `FormController.FormIsValidByVerdicts` ties it to the loop, and `ValidFormFields` and `ValidFormDates` state its consequences |
| FormRules.ValidFormFields | js/form.js:45-61 | a form that passes has no required field blank and no required date in the past |
| FormRules.ValidFormDates | js/form.js:45-61 | a form that passes with both dates readable has checkout strictly after checkin |
| FormRules.ClampedCheckout | js/form.js:183-189 | checkout's minimum becomes the day after the checkin; its value is emptied exactly when it was filled with a date not after the checkin, and is otherwise kept; nothing else in the field changes |
| FormRules.CheckinChanged | js/form.js:179-190 | the fields keep their number and every field other than the first `checkout` is unchanged; with no checkout field, an empty checkin or a checkin that is no date nothing changes at all |
| FormRules.CheckinChangedCheckout | js/form.js:179-190 | when the checkin holds a date, the checkout field becomes `ClampedCheckout` of itself at that day |
| FormRules.CheckinChangeRestoresOrder | js/form.js:179-190 | after that change the date-range check can no longer fail |
| FormRules.CollectData | js/form.js:210-214 | the collected data never has an entry for an unnamed field |
| FormRules.CollectDataEntry | js/form.js:210-214 | the data has a key exactly for each field name, holding the value of the last field of that name |
| FormRules.ResetFields | js/form.js:273 | defines `form.reset()` on the fields, each getting back its default value; `ResetRestoresDefaults` states it |
| FormRules.ResetRestoresDefaults | js/form.js:273 | `form.reset()` gives each field its default value and changes nothing else, so lookups by name are unaffected |
| FormController.ShowVerdict | js/form.js:119-131 | defines how a verdict is shown: an error marks the group and writes its message, no error unmarks it and empties the message, and a group without a message element keeps none; `ReservationForm.ValidateField` states it for a field |
| FormController.Verdicts | js/form.js:49-53 | one verdict per field, in document order; its contract keeps only the length, and `VerdictsAt` states that entry j is field j's `validateField` outcome |
| FormController.VerdictsAt | js/form.js:49-53 | the verdict the loop computes for a field is that field's own `validateField` outcome, with the accommodation read once for the whole form |
| FormController.RequiredPassAll | js/form.js:46-53 | `isValid` after the first n fields is true exactly when none of the required fields among them failed |
| FormController.FormIsValidByVerdicts | js/form.js:45-61 | the form passes exactly when every required field's verdict passes and the date range is not out of order |
| FormController.CheckedGroups | js/form.js:49-53 | the loop keeps the number of groups |
| FormController.LastRequired | js/form.js:49-53 | the last required field in a group, if any: in that group, required, and no required field of the group after it |
| FormController.CheckedGroupsAt | js/form.js:49-53 | after the loop a group shows the verdict of the last required field in it; a group without a required field is as it was |
| FormController.AfterFieldChecks | js/form.js:45-53 | defines the groups after the per-field loop of `validateForm`, with the accommodation read from the form; it keeps the number of groups, and `CheckedGroupsAt` and `EveryRequiredFieldReported` state what each group shows |
| FormController.AfterDateCheck | js/form.js:147-163 | defines `validateDates`' write to the checkout's group; it keeps the number of groups, and `DateCheckTouchesOnlyCheckout` states that only that group changes and is marked exactly when the range is out of order |
| FormController.DateCheckTouchesOnlyCheckout | js/form.js:147-163 | the date check writes only the checkout's group, marking it exactly when the range is out of order; the checkin's group is untouched unless it is the checkout's |
| FormController.EveryRequiredFieldReported | js/form.js:45-61 | with no short-circuit, a required field ends up marked exactly when it fails its rule, unless a later required field or the checkout shares its group |
| FormController.EveryRequiredFieldReportedOwnGroups | js/form.js:45-61 | with one group per field, every required field other than checkout ends up marked exactly when it fails its rule |
| FormController.SharedGroupHidesEarlierError | js/form.js:49-53 | of two required fields in one group, an earlier failure goes unmarked when the later field passes, although the form is rejected |
| FormController.CheckoutVerdictOverwritten | js/form.js:49-58 | a failing checkout after checkin leaves its group unmarked although the form is rejected |
| FormController.ReservationForm.constructor | js/form.js:13-15 | the form as loaded: the given fields, groups and field-to-group map, the button enabled under its caption, the banner hidden and nothing pending |
| FormController.ReservationForm.InitDatePickers | js/form.js:170-176 | every date input gets today as its minimum; other fields are unchanged |
| FormController.ReservationForm.ValidateField | js/form.js:66-131 | returns true exactly when the field has no error; the field's group is marked and shows the message on failure, and is cleared on success; no other group changes |
| FormController.ReservationForm.ValidateDates | js/form.js:137-164 | returns false exactly when the range is out of order; only the checkout's group changes |
| FormController.ReservationForm.ValidateRequired | js/form.js:50 | one `validateField` call of the loop returns true exactly when the given verdict passes, and writes that verdict into the field's group alone |
| FormController.ReservationForm.ValidateForm | js/form.js:45-61 | returns the conjunction of every required field's verdict and the range verdict; all groups end as the field checks and then the date check leave them |
| FormController.ReservationForm.Edit | js/form.js:33-37 | the user's typing sets that field's value, which the `input` and `change` handlers then see; no other field changes |
| FormController.ReservationForm.OnInput | js/form.js:33-37 | typing clears the error mark of the field's group and keeps its message text |
| FormController.ReservationForm.OnCheckinChange | js/form.js:179-190 | the fields become `CheckinChanged` of the old fields |
| FormController.ReservationForm.OnSubmit | js/form.js:17-22 | submits exactly when `validateForm` accepts; on submission the button is disabled with "Odosielam..." (js/form.js:204-207) and the collected data is pending; otherwise the button is unchanged |
| FormController.ReservationForm.CompleteSubmission | js/form.js:271-279 | the success banner is shown, the form is reset, and the button is enabled again under "Odoslať rezerváciu" |
| FormController.ReservationForm.ShowSuccess | js/form.js:285-298 | the banner is shown with the success text |
| FormController.ReservationForm.ShowError | js/form.js:304-319 | the banner is shown red with the given text |
| FormController.ReservationForm.SuccessBannerExpires | js/form.js:295-297 | the banner is hidden |
| FormController.ReservationForm.ErrorBannerExpires | js/form.js:315-318 | the banner is hidden and loses its red background |
| FormController.BlankNameRefused | js/form.js:45-61 | a form whose one field is a blank required name does not pass |
| FormController.TypedNameAccepted | js/form.js:45-61 | the same form passes once the name holds "Jana" |
| FormController.TypeNameAndResubmit | js/form.js:17-22 | on a form holding only the blank required name, typing "Jana" and submitting again goes through |
| FormController.ResubmitAfterCorrection | js/form.js:17-22 | a submit with an empty required field is refused, and after the user fills it in the next submit goes through |
| Gallery.Shows | js/gallery.js:31 | defines the filter condition: the filter "all" shows everything, any other filter the items whose category is that very value; `FilterBar.OnClick` states the display it leads to |
| Gallery.FilterBar.constructor | js/gallery.js:13-17 | the bar as the page loads it: each button with its initial `active` class and every item displayed |
| Gallery.FilterBar.OnClick | js/gallery.js:17-48 | with items on the page, exactly the clicked button is active and an item is shown exactly when the filter is "all" or equals its category; without items nothing changes |
| Gallery.Next | js/gallery.js:148-149 | the next index stays below n, is i + 1 before the last image, and wraps from the last to 0 |
| Gallery.Previous | js/gallery.js:143-144 | the previous index stays below n, is i - 1 after the first image, and wraps from 0 to n - 1 |
| Gallery.NextPreviousInverse | js/gallery.js:143-151 | Next and Previous undo each other, in either order |
| Gallery.Advance | js/gallery.js:148-151 | any number of Next presses stays within the images |
| Gallery.AdvanceIsSum | js/gallery.js:148-149 | k Next presses from i land on (i + k) mod n |
| Gallery.AdvanceFullCircle | js/gallery.js:148-149 | n Next presses return to the starting image |
| Gallery.CounterText | js/gallery.js:160 | defines the counter text "i+1 / n"; `CounterReadsBack` states that it reads back |
| Gallery.CounterReadsBack | js/gallery.js:159-161 | the counter "i+1 / n" reads back: `parseInt` of it is i + 1, and the text after " / " parses to n |
| Gallery.ImagesOf | js/gallery.js:71-77 | the image list has one entry per gallery item |
| Gallery.ImagesOfAt | js/gallery.js:71-77 | entry j is the picture of item j, in document order |
| Gallery.Lightbox.constructor | js/gallery.js:56-77 | the image list is gathered from the items, the index is 0 and the overlay is closed |
| Gallery.Lightbox.Update | js/gallery.js:153-162 | the image element shows the current image and the counter shows its text, each only if present |
| Gallery.Lightbox.OnItemClick | js/gallery.js:80-85 | clicking item k sets the index to k, opens the overlay, locks the scroll and shows image k |
| Gallery.Lightbox.Open | js/gallery.js:132-136 | the overlay is active, the scroll locked, and the current image shown |
| Gallery.Lightbox.Close | js/gallery.js:138-141 | the overlay is inactive and the scroll unlocked; the index and displayed image do not change |
| Gallery.Lightbox.ShowNext | js/gallery.js:148-151 | the index becomes `Next` of the old index and the display follows |
| Gallery.Lightbox.ShowPrevious | js/gallery.js:143-146 | the index becomes `Previous` of the old index and the display follows |
| Gallery.Lightbox.OnKeyDown | js/gallery.js:116-130 | while closed, or for any other key, nothing changes; while open, Escape closes, ArrowLeft goes to Previous and ArrowRight to Next |
| Navigation.PaddedTwoDigits | js/main.js:186-187 | a month or day padded with '0' takes exactly two characters |
| Navigation.FormatDate | js/main.js:184-190 | defines `formatDate` on a date's fields: the year as `String` writes it, the month number and day padded to two digits, joined by '-'; the round-trip lemmas state what it gives |
| Navigation.PaddedTwoDigitsOf | js/main.js:186-187 | two digits naming a number from 1 on are what padding that number gives back |
| Navigation.FormatDateRoundTrip | js/main.js:184-190 | for a four-digit year `formatDate` gives a ten-character YYYY-MM-DD text that `new Date` reads back as the same day |
| Navigation.ParsedDateIsFormatted | js/main.js:184-190 | conversely, every text `new Date` reads as a date whose year does not start with '0' is one `formatDate` writes, for a four-digit year, for the very day it is read as |
| Navigation.FormattedDateIsPast | js/main.js:198-203 | `isPastDate` of a formatted date holds exactly when the day is before today; today is not past |
| Navigation.LastSegment | js/main.js:137 | the result is the part of the path after its last '/', containing no '/' |
| Navigation.CurrentPage | js/main.js:137 | the current page is the last segment when that is non-empty and "index.html" exactly when it is empty, so it is never empty |
| Navigation.LinkIsActive | js/main.js:144-147 | defines the four alternatives under which a link is marked; `LinkIsActiveOnCurrentPage` reduces them on the computed page |
| Navigation.LinkIsActiveOnCurrentPage | js/main.js:144-147 | on the computed page a link is marked exactly when its href is that page or "./"; the empty-page alternative never applies |
| Navigation.NavLinks.constructor | js/main.js:138 | the navigation links with their `href` attributes, none marked active yet |
| Navigation.NavLinks.SetActiveNavLink | js/main.js:136-151 | each link ends active exactly when it was already active or the condition holds; no link is unmarked |
| Navigation.Forwarded | js/main.js:171-180 | the forwarded calls are among the calls made, never more of them |
| Navigation.ForwardedSpaced | js/main.js:171-180 | forwarded calls are at least `delay` apart, the first at least `delay` after the start |
| Navigation.Throttle.constructor | js/main.js:171-172 | the delay is the one given, 100 when none is, and `lastCall` starts at 0 |
| Navigation.Throttle.Call | js/main.js:173-180 | a call is forwarded with its result exactly when `now - lastCall >= delay`, else returns nothing; only forwarded calls move `lastCall` |
| Navigation.HamburgerMenu.constructor | js/main.js:18-23 | the menu as loaded: closed, with the scroll unlocked |
| Navigation.HamburgerMenu.Toggle | js/main.js:26-30 | both classes flip together and the scroll is locked exactly when the menu is open |
| Navigation.HamburgerMenu.OnLinkClick | js/main.js:33-39 | a link click closes the menu and unlocks the scroll |
| Navigation.HamburgerMenu.OnDocumentClick | js/main.js:42-48 | a click outside both elements closes the menu; any other click changes nothing |
| Navigation.HamburgerMenu.Close | js/main.js:35-37 | both classes are removed and the scroll is unlocked, as the link-click and outside-click handlers do |
| Navigation.StickyHeader.constructor | js/main.js:55-58 | the header unmarked, with `lastScroll` at 0 |
| Navigation.StickyHeader.OnScroll | js/main.js:60-71 | the header is marked `scrolled` exactly when the offset, a possibly fractional number of pixels such as 100.5, exceeds 100, and the offset is remembered |

## Left out

- DOM lookups, event wiring, CSS writes other than the modelled flags and texts, `scrollIntoView`, and smooth anchor scrolling (js/main.js:77-102) are not modelled. They are presentation only.
- The scroll-reveal `IntersectionObserver` (js/main.js:107-131), `debounce` (js/main.js:158-168) and `getTodayDate` (js/main.js:193-195) are not modelled. They are timer- or clock-driven, with no logic beyond what is already modelled.
- The clock is a parameter. "Today" is a day number, and the throttle's `now` is an integer.
- Time zones are not modelled. `new Date('YYYY-MM-DD')` is midnight UTC while "today" is local midnight, and `toISOString` converts to UTC. The model compares day numbers.
- Date texts that browsers accept beyond YYYY-MM-DD are not modelled. They are read as Invalid Date.
- Dates.ParseIsoDate: a text of the YYYY-MM-DD shape whose day does not exist in its month, such as "2023-02-30", is read as an Invalid Date. Some engines roll it over into the next month instead. A date input never produces such a value, so only direct callers of `isPastDate` could see the difference.
- The browser's own constraint validation is not modelled. This covers the `required` and `min` attributes blocking a submit before the script sees it.
- The submit button, the banner and each field's `.form-group` are assumed to exist. Without them the scripts either skip the write or throw.
- Each gallery item is assumed to contain an `<img>`, and `img.src` is taken as given. The scripts do not resolve URLs.
- The filter animations are collapsed into their settled state. The fade timers of one click can still fire after a later click, and that race is not modelled.
- The image preview for pages without a gallery grid (js/gallery.js:168-232) is not part of this model. It opens the same `#lightbox`, creating it if absent. `initLightbox` then finds that element and registers its `keydown` handler with an empty image list. An ArrowLeft or ArrowRight press in the open preview therefore reaches `showPreviousImage` or `showNextImage` with no images. The index becomes NaN and `updateLightboxImage` throws. This keyboard path and the throw are not modelled, and `Gallery.Lightbox.Valid` excludes an open overlay with no images.
- The accommodation is looked up by id among the form's fields only. An element with that id outside the form is not modelled.
- `document.body.style.overflow` is shared by the hamburger menu and the lightbox. Each class keeps its own `scrollLocked` flag, so their interleaving is not captured.
- The commented-out Formspree and EmailJS integration (js/form.js:219-268) never runs and is not modelled.
- What `func` does inside `throttle` is not modelled; its result is a parameter.
- Gallery.Lightbox.ShowNext: requires a non-empty image list. With none, the script computes a NaN index and throws. Of the ways this model opens the overlay, only a click on a gallery item does, so an item exists. The preview path that opens it with no images is left out, as stated above.
- Gallery.Lightbox.ShowPrevious: requires a non-empty image list, for the same reason as ShowNext.
- Navigation.FormatDateRoundTrip: stated for years 1000 to 9999 only. Other years are not written with four digits, so `formatDate` does not give a date-only ISO string for them.
- FormController.ReservationForm.OnSubmit: requires that no submission is in flight. The button is disabled then, so the browser dispatches no submit.
