# GrowFit layout and formatting helpers in Dafny

This project models the two browser scripts shared by every GrowFit page:

- `common/layout.js`, the layout controller. It derives the page id from the
  URL path, keeps `LayoutState.sidebarOpen` in step with the viewport width and
  the menu toggle, marks the sidebar menu links that point at the current page,
  and opens and closes the two header dropdowns (notifications and profile).
  The dropdowns are created on first use.
- `common/utils.js`, the formatting helpers: `formatDate`, `formatTime`,
  `getRelativeTime`, `getDaysLeft`, `formatPercent`, `calculateProgress`,
  `truncateText` and `getInitials`.

Files:

- `wrappers.dfy` (module `Wrappers`): `Option`. `None` stands for a missing or
  falsy JavaScript argument (`null`, `undefined`).
- `text.dfy` (module `Text`): the JavaScript string operations the two scripts
  call: `String(n)` for integers, `padStart`, `includes`, `replace('.html', '')`
  (which removes the first occurrence), `split(...).pop()`, `split(' ')`,
  `trim`, `slice(0, n)` and `charAt(0)`. `IndexOf` models the first-occurrence
  search that `replace` performs; the scripts do not call `indexOf` themselves.
  `Join` is not called by the scripts either: it is there only as the inverse of
  `split`, in `JoinSplit` and `SplitJoin`. Each operation comes with the facts
  the scripts rely on: numerals read back as their value, `split` loses nothing,
  trim leaves only white space outside the kept slice, and so on.
- `utils.dfy` (module `Utils`): the formatting helpers as pure functions. A
  `Date` argument becomes the `DateTime` of local calendar fields it reports
  (`getFullYear`, `getMonth`, `getDate`, `getHours`, `getMinutes`).
  `getRelativeTime` needs both the fields and the instant, so its date becomes a
  `Moment` that adds the time value in milliseconds; `getDaysLeft` only
  subtracts instants, so its date is the time value alone (an optional
  integer). "Now" is a parameter, in milliseconds.
- `layout.dfy` (module `Layout`): `PageId` as a pure function, and the document
  plus `LayoutState` as the class `LayoutPage`. Its fields are the state
  (`sidebarOpen`, `currentPage`), the `sidebar--open` marker, the menu links
  (optional `href` and the active marker), and for each header control four
  flags: button exists, button active, dropdown exists, dropdown open. Each
  handler is a method whose postcondition gives the whole new state.

Behaviour of the code worth knowing:

- A click on a sidebar menu link on a narrow viewport *toggles* the sidebar
  (`common/layout.js:46-48`); it does not always close it.
- The dropdowns are not always mutually exclusive. The first click on a
  button creates its dropdown and opens it without closing the other one
  (`common/layout.js:132-135`, `common/layout.js:189-221`), so both can be open
  at once. `Layout.LazyCreationKeepsOtherOpen` shows this. Exclusion holds on
  the path where the dropdown already exists (`common/layout.js:137-143`,
  `common/layout.js:156-162`). The model states it there and nowhere as a
  global invariant.
- `getInitials` splits the *trimmed* name on single spaces, not on white space
  in general. Consecutive spaces give an empty second part and a
  one-letter result. With no space it takes the first character of the
  *untrimmed* name.
- Active-link matching is by substring (`common/layout.js:105`). A page id
  inside another page's file name marks both links
  (`Layout.OverlappingPageNames`).

## Model

| member | source | states |
|---|---|---|
| `Text.NatDigits` | common/utils.js:11-12 | `String(n)` of a natural is a canonical numeral (non-empty, all digits, no superfluous leading zero, so zero is `"0"`) and reads back as `n` |
| `Text.ParseDecimalString` | common/utils.js:34-36 | the decimal text of any integer, a minus sign included, parses back to that integer |
| `Text.NatDigitsOfValue` | common/utils.js:48 | every canonical numeral is the numeral of its value, so numerals and naturals correspond one to one |
| `Text.NatDigitsLength` | common/utils.js:10-13 | the numeral of `n` has at most `k` digits exactly when `n < 10^k` |
| `Text.PadStart` | common/utils.js:11-12 | `padStart` keeps a long enough string, otherwise fills on the left up to the width, with the original as suffix |
| `Text.TwoDigitsValue` | common/utils.js:11-12 | a value below 100 padded to two digits is exactly two digits and reads back as the value |
| `Text.IndexOf` | common/layout.js:25 | `indexOf` returns a position where the pattern occurs with no earlier occurrence, or none when it occurs nowhere |
| `Text.Includes` | common/layout.js:105 | `includes` holds exactly when the pattern occurs at some position |
| `Text.ParseIntExact` | common/utils.js:11-12 | a text that reads back as `n` is exactly `String(n)`: no padding zeros, no `-0`, so a parse pins the text |
| `Text.RemoveFirst` | common/layout.js:25 | `replace(pat, '')` is the identity when `pat` does not occur; otherwise it cuts out exactly the `|pat|` characters at the first occurrence, keeping what lies before and after it |
| `Text.SplitPiecesHaveNoSeparator` | common/layout.js:25 | no piece of `split(sep)` contains the separator |
| `Text.JoinSplit` | common/utils.js:77 | joining the pieces of `split(sep)` with `sep` gives back the string |
| `Text.SplitJoin` | common/utils.js:77 | splitting a join of separator-free pieces gives back the pieces |
| `Text.SplitConcat` | common/layout.js:25 | a separator splits the string into the pieces before it followed by the pieces after it |
| `Text.LastSegmentIsSuffix` | common/layout.js:25 | `split('/').pop()` is the longest `/`-free suffix of the path |
| `Text.LastSegmentAfterSeparator` | common/layout.js:25 | the last segment of `dir + "/" + name` is `name` when `name` has no `/` |
| `Text.TrimStart` | common/utils.js:77 | the kept suffix starts with a non-white-space character and only white space was dropped |
| `Text.TrimEnd` | common/utils.js:77 | the kept prefix ends with a non-white-space character and only white space was dropped |
| `Text.Trim` | common/utils.js:77 | `trim()` is a slice of the input with only white space around it and no white space at either end |
| `Utils.FormatDate` | common/utils.js:7-14 | a missing date gives `""`; otherwise the text reads back as year, month (1-12) and day, the year written as `String(year)` (by `Text.ParseIntExact`), and a four-digit year gives ten characters |
| `Utils.ParseFormattedDate` | common/utils.js:10-13 | year, dot, two-digit month, dot, two-digit day parses back to the three numbers |
| `Utils.FormatTime` | common/utils.js:16-22 | a missing date gives `""`; otherwise five characters `HH:MM` whose fields read back as hour and minute |
| `Utils.DivisionByRemainder` | common/utils.js:29-31 | floor division is determined by a remainder in `[0, d)` |
| `Utils.FloorOfFloor` | common/utils.js:29-31 | flooring by `a` then by `b` equals flooring by `a * b`, so hours and days are the age divided by an hour and by a day |
| `Utils.GetRelativeTime` | common/utils.js:24-38 | missing date gives `""`; otherwise exactly one bucket by age: under a minute (future included) "방금 전", 1-59 minutes, 1-23 hours, 1-6 days, each count the age floored by its unit, and from a week on the formatted date |
| `Utils.GetDaysLeft` | common/utils.js:40-49 | missing date gives none; a day or more in the past gives "마감", less than a day in the past or now "오늘", a future target "D-n" with `n` the least number of days covering the time left |
| `Utils.RoundHalfUp` | common/utils.js:59 | `Math.round` gives the integer within half of `x`, halves going up |
| `Utils.FormatPercent` | common/utils.js:57-60 | a missing or zero total gives `"0%"`; otherwise `String(k)` followed by `%` (the numeral read back canonically, so it is pinned by `Text.ParseIntExact`) where `k` is the nearest integer to `value / total * 100` |
| `Utils.CalculateProgress` | common/utils.js:62-65 | a missing or zero total gives 0; otherwise the percentage clamped to `[0, 100]`, equal to it inside the range |
| `Utils.ProgressMonotone` | common/utils.js:62-65 | for a positive total, progress never decreases as `current` grows |
| `Utils.NumberExamples` | common/utils.js:57-65 | `formatPercent(50, 200)` is `"25%"`, a zero total gives `"0%"`, progress 150/100 is 100, -10/100 is 0, 30/0 is 0 |
| `Utils.TruncateText` | common/utils.js:68-72 | the limit defaults to 50; empty or missing text gives `""`; text within the limit is returned unchanged; longer text keeps its first `maxLength` characters and gains `"..."`, at most `maxLength + 3` long; a negative limit drops characters from the back |
| `Utils.TruncateIdempotent` | common/utils.js:68-72 | for a non-negative limit, truncating twice equals truncating once |
| `Utils.TruncateExamples` | common/utils.js:68-72 | `truncateText("hello", 10)` is `"hello"`, `truncateText("hello world", 5)` is `"hello..."`, and with the default limit 50 `"hello world"` is kept |
| `Utils.GetInitials` | common/utils.js:74-80 | missing or empty name gives `"?"`; a Hangul syllable anywhere gives the first character; otherwise the first character of the trimmed name plus the character after its first space (nothing after a double space); without a space the first character of the untrimmed name; always one or two characters |
| `Utils.InitialsOfJohnSmith` | common/utils.js:74-80 | `getInitials("John Smith")` is `"JS"` |
| `Utils.InitialsOfMadonnaAndEmpty` | common/utils.js:74-80 | `getInitials("Madonna")` is `"M"`, and an empty name gives `"?"` |
| `Utils.SplitAtFirst` | common/utils.js:77-78 | at the first separator, `split` gives the text before it as piece 0 and the start of the rest as piece 1 |
| `Utils.InitialsOfTrimmed` | common/utils.js:77-78 | on a trimmed name, the first characters of parts 0 and 1 are its first character and the one after its first space |
| `Utils.InitialsOfTwoWords` | common/utils.js:77-78 | two words separated by one space give the first letters of both words |
| `Utils.InitialsOfOneWord` | common/utils.js:79 | a word with no space and no Hangul gives its first character |
| `Layout.PageId` | common/layout.js:23-26 | the page id is never empty and never contains `/` |
| `Layout.HtmlFirstOccurrence` | common/layout.js:25 | in `name + ".html" + rest` with no `.html` inside `name`, the first `.html` starts right after `name` |
| `Layout.PageIdRemovesFirstHtml` | common/layout.js:24-26 | a last segment `name + ".html" + rest` without `/` has page id `name + rest`, or `"dashboard"` when that is empty (the segment `.html` itself): only the first `.html` is cut out, wherever it sits |
| `Layout.PageIdOfHtmlFile` | common/layout.js:24-26 | a path ending in `/<name>.html` has page id `name` |
| `Layout.PageIdOfPlainSegment` | common/layout.js:24-26 | a last segment without `.html` is the page id itself, and an empty one gives `"dashboard"` |
| `Layout.IsActiveHref` | common/layout.js:104-105 | a link is active exactly when its `href` is present, non-empty, and contains the page id at some position |
| `Layout.OwnLinkIsActive` | common/layout.js:99-110 | a link whose `href` ends in the current page's file name is marked active |
| `Layout.OverlappingPageNames` | common/layout.js:105 | page id `report` marks both `report.html` and `reports.html` |
| `Layout.HeaderMenu.Closed` | common/layout.js:166-186 | closing keeps which elements exist and, on a valid control, clears both markers |
| `Layout.HeaderMenu.Opened` | common/layout.js:141-142 | opening an existing dropdown marks it open and keeps the control valid |
| `Layout.ClosedIdempotent` | common/layout.js:166-186 | closing twice equals closing once |
| `Layout.LayoutPage.constructor` | common/layout.js:7-11 | before any script runs `sidebarOpen` is true, the page id is empty and no dropdown exists |
| `Layout.LayoutPage.InitLayout` | common/layout.js:23-29 | `currentPage` becomes the page id of the path; nothing else changes |
| `Layout.LayoutPage.InitSidebar` | common/layout.js:32-40 | an existing sidebar on a viewport at most 768 wide is closed (state and class); otherwise nothing changes |
| `Layout.LayoutPage.OnResize` | common/layout.js:85-93 | afterwards `sidebarOpen` is `width > 768` whatever it was; the class follows only when the sidebar exists |
| `Layout.LayoutPage.SetActivePage` | common/layout.js:99-111 | every link is active exactly when its `href` matches the page id, others are cleared, hrefs and the number of links are unchanged |
| `Layout.LayoutPage.ToggleSidebar` | common/layout.js:114-125 | with a sidebar the state flips and the class equals the new state; without one nothing changes |
| `Layout.LayoutPage.OnMenuLinkClick` | common/layout.js:44-50 | on a viewport at most 768 wide a menu link click toggles the sidebar; otherwise nothing changes |
| `Layout.LayoutPage.CloseAllDropdowns` | common/layout.js:166-186 | both buttons lose the active marker and both dropdowns the open marker; nothing is created or removed |
| `Layout.LayoutPage.CreateNotificationDropdown` | common/layout.js:189-222 | with a button the dropdown is created, opened and the button activated; without one nothing changes; the profile menu is untouched |
| `Layout.LayoutPage.CreateProfileDropdown` | common/layout.js:225-257 | the same for the profile menu, leaving the notifications untouched |
| `Layout.LayoutPage.ToggleNotifications` | common/layout.js:128-144 | a missing dropdown is created and opened with the profile menu untouched; an existing one ends open exactly when its button was not active, with the profile menu closed |
| `Layout.LayoutPage.ToggleProfileMenu` | common/layout.js:147-163 | the same for the profile menu, closing the notifications on the existing path |
| `Layout.LayoutPage.OnDocumentClick` | common/layout.js:70-75 | a click outside the header controls closes both dropdowns; one on them changes nothing |
| `Layout.LayoutPage.OnContentLoaded` | common/layout.js:14-20 | after load the page id comes from the path; on a narrow viewport an existing sidebar is closed, otherwise the sidebar state and class are kept from before (from the constructor's state, open); the links are marked |
| `Layout.SidebarFollowsViewport` | common/layout.js:33-40 | loaded at 500 the sidebar is closed, resized to 900 it opens, resized to 600 it closes |
| `Layout.DropdownsExclusiveOnceCreated` | common/layout.js:137-143 | once both dropdowns exist, opening the profile closes the notifications, and a second click on the profile button closes it |
| `Layout.LazyCreationKeepsOtherOpen` | common/layout.js:132-135 | opening the profile menu and then creating the notifications dropdown leaves both open |

## Left out

- Listener registration (`DOMContentLoaded`, click and resize listeners), element lookup, and the dropdowns' HTML templates. These are browser plumbing with no logic. Each listener body is a method.
- The dropdown and toast style sheets injected into the document head. They contain no logic.
- The resize debounce timer (`clearTimeout`/`setTimeout`, 250 ms). Only the callback's effect for the final width is modelled.
- The 10 ms timer that opens a newly created dropdown. Creation and opening are one step.
- The click on the document that follows a button click is not modelled as a separate event. `OnDocumentClick` takes whether the target lies inside a header control as a parameter, in place of `closest`.
- `LayoutState.notifications`: it is never read or written.
- The initial document is assumed to have no dropdown elements and no active or open markers on the header buttons.
- `handleLogout`: a blocking `confirm`, `localStorage.clear` and navigation, all I/O.
- `showToast`: it inserts a DOM element and removes it on a timer.
- `formatNumber`: it delegates to `toLocaleString('ko-KR')`, a locale library outside this model.
- The `console.log` calls and the `window.GrowFitUtils` export object.
- Parsing of `new Date(...)`, time zones, the clock, and invalid dates (`NaN` fields). The model takes the calendar fields, the time value and "now" as parameters.
- The number `0` passed as a date is falsy in JavaScript and gives the empty result. The model folds it into `None`.
- `FormatPercent`: computed over exact reals. The floating-point rounding of `value / total * 100` before `Math.round` is not modelled, nor is the exponent form (`"1e+21"`) JavaScript's `String(k)` uses for integers of magnitude 10^21 or more; `DecimalString` writes all the digits. A `NaN` value or total is not modelled either.
- `CalculateProgress`: computed over exact reals. `NaN` inputs are not modelled.
- `GetRelativeTime`, `GetDaysLeft`: the millisecond difference is divided exactly. The floating-point quotient before `Math.floor`/`Math.ceil` is not modelled.
- `TruncateText`, `GetInitials`: one character stands for one UTF-16 code unit. Characters outside the Basic Multilingual Plane, which are two units in JavaScript, are not distinguished. Non-string and non-integer arguments are not modelled.
