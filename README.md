# Free meeting rooms: a Dafny model of the room-availability core

The program answers one question: which meeting rooms are free for a time
window today? It reads a room-booking provider's timeline page and finds
each room's row and each reservation element. A reservation's length comes
from the pixel width of its element. The program then reports the rooms
that have no reservation conflicting with the window. The window comes
from two optional `H:M` arguments, `--start` and `--end`.

This project models the core of `src/lib.rs`:

- **Time arguments** (`parse_time_arg`, module `TimeArg`). An optional
  `"H:M"` text is split on `':'`. The hour and the minute are parsed as Rust
  parses a `u32`: an optional `+`, then one or more ASCII digits, within
  range. The hour must be at most 23 and the minute at most 59. The result
  is a time of day in seconds since midnight, `3600*h + 60*m`, with seconds
  zeroed. Segments after the second are ignored. An absent argument returns
  the caller's default. Rust's `split` and `find` live in module `Text`, and
  integer parsing in module `NumberText`.
- **The window** (`run`, module `Run`). The start is `--start` or the
  current time of day. The end is `--end` or, failing that, one hour after
  the resolved start. That end is read back as a time of day, so past 23:00
  it wraps to `(start + 3600) % 86400`.
- **Rooms and reservations** (`scrape_rooms`, module `Rooms`). Rooms are
  inserted into a map keyed by name, one per row. A later row with the same
  name replaces the earlier one. Each reservation element is then decoded.
  Its width text is the style from index 7 up to the first `"px;"`. The
  reservation is appended to the room whose key is its `room_name`. Elements
  naming an unknown room are dropped. The first failure ends the scrape.
  Both loops are methods over a local `map`, proved equal to the fold
  functions that specify them.
- **Availability** (the loop in `print_free_rooms`, module `Availability`).
  A room is free when none of its reservations meets any of the source's
  three strict-comparison clauses. The inner loop stops at the first
  conflict. The outer loop visits the map's keys in an unspecified order.
  The free rooms are returned as a sub-map instead of being printed.

The conflict test is modelled as the code writes it, and this is not a
textbook interval overlap. `Availability.ConflictsExactly` states which
overlaps it misses: a window that covers a reservation and shares its start
or its end. In particular, a window equal to a booked hour is reported free.
A textbook half-open overlap test would call a room booked `[0, 3600)` busy
for the window 00:00–01:00. The code reports it free, and
`Run.OneRoomWindows` proves it.

## Model

| member | source | states |
|---|---|---|
| `Text.Split` | src/lib.rs:30 | `split(":")` gives at least one segment, and no segment contains the separator |
| `Text.JoinSplit` | src/lib.rs:30 | joining the segments with the separator gives back the original text |
| `Text.SplitJoin` | src/lib.rs:30 | splitting a join of separator-free segments gives back those segments |
| `Text.Find` | src/lib.rs:71 | `find` returns the first index where the pattern occurs, and None exactly when it occurs nowhere |
| `NumberText.ParseU32OfNatText` | src/lib.rs:32-33 | `parse::<u32>` reads back the decimal text of every value up to 2^32-1 |
| `NumberText.ParseI32OfIntText` | src/lib.rs:60 | `parse::<i32>` reads back the decimal text of every value in the i32 range, negatives included |
| `NumberText.ParseU32OfDigits` | src/lib.rs:32-33 | a digit run in range parses to its value, also with a leading zero or a leading `+` |
| `NumberText.ParseU32RejectsNonDigit` | src/lib.rs:32 | any non-digit, other than a leading `+`, makes the u32 parse fail |
| `TimeArg.TimeOfDayOf` | src/lib.rs:31-35 | the time of day has exactly the given hour and minute, and zero seconds |
| `TimeArg.ParseTimeArg` | src/lib.rs:27-40 | an absent argument gives the default unchanged; an accepted value is a whole minute |
| `NumberText.ParseU32Characters` | src/lib.rs:32-33 | an accepted u32 text holds only ASCII digits, apart from a leading `+` |
| `TimeArg.ParseWellFormed` | src/lib.rs:29-36 | an hour text that parses as a u32 ≤ 23, `:`, a minute text that parses as a u32 ≤ 59, then nothing or more `:`-segments, give that hour and minute for any default; this is the converse of `ParsedValueShape` |
| `TimeArg.ParsedValueShape` | src/lib.rs:29-36 | every accepted value has that shape, and the result is its hour and minute |
| `TimeArg.ParseRejectsLargeHour` | src/lib.rs:32 | a numeric hour above 23 is refused with the hour-range error |
| `TimeArg.ParseRejectsNonNumericHour` | src/lib.rs:32 | a first segment that is not a u32 is refused with the hour-parse error |
| `TimeArg.ParseRejectsMissingColon` | src/lib.rs:33 | a value without `:` is always refused; with a valid hour, the error is the missing minute |
| `TimeArg.ParseRejectsLargeMinute` | src/lib.rs:33 | a valid hour with a numeric minute above 59 is refused with the minute-range error |
| `TimeArg.ParseRejectsNonNumericMinute` | src/lib.rs:33 | a valid hour with a second segment that is not a u32 is refused with the minute-parse error |
| `TimeArg.ParsesSimpleTime` | src/lib.rs:126-136 | `"8:30"` gives 08:30 whatever the default |
| `TimeArg.ParsesZeroPaddedTime` | src/lib.rs:138-148 | `"08:05"` gives 08:05 whatever the default |
| `TimeArg.ParsesPlusSignedHour` | src/lib.rs:32 | `"+8:30"` gives 08:30, since the u32 parse accepts a leading `+` |
| `TimeArg.RejectsHour24` | src/lib.rs:150-158 | `"24:00"` is refused |
| `TimeArg.RejectsWordHour` | src/lib.rs:160-168 | `"hello:00"` is refused |
| `Rooms.WidthText` | src/lib.rs:71 | the width text starts at index 7 and ends right before the first `"px;"`; the error is a missing marker exactly when `"px;"` occurs nowhere, and the slice panic exactly when it first occurs before index 7; no other error is possible |
| `Rooms.WidthTextOfStyle` | src/lib.rs:71 | a 7-character prefix, then a width, then `"px;"`, then anything, yields that width, provided `"px;"` does not occur earlier |
| `Rooms.WidthTextOneHour` | src/lib.rs:71 | `"width: 58px;"` yields `"58"` |
| `Rooms.RoomOf` | src/lib.rs:55-63 | a row is accepted exactly when its name is present and its floor and size are present and parse as i32 and u32; the room has the row's name, that floor and size, and no reservations; otherwise the error is that of the first failing field, in the order name, floor, size |
| `Rooms.LastRowNamed` | src/lib.rs:58 | the index of the last row bearing a name, or none when no row bears it |
| `Rooms.InsertRoomsSucceeds` | src/lib.rs:54-64 | the row loop succeeds exactly when every row is accepted; otherwise its error is that of the first refused row |
| `Rooms.InsertRoomsKeys` | src/lib.rs:54-64 | after the row loop, the keys are the old keys plus the row names, and rooms stay filed under their own names |
| `Rooms.InsertRoomsLastRow` | src/lib.rs:54-64 | after the row loop, each row name holds the room of the last row with that name, so a later row replaces an earlier one; other keys are unchanged |
| `Rooms.Attach` | src/lib.rs:72-77 | the key set is unchanged, every other room is unchanged, and the named room, if present, gains the reservation at the end |
| `Rooms.AttachKeepsKeyedByName` | src/lib.rs:58-59 | attaching keeps every room's key equal to its name |
| `Rooms.ReservationOf` | src/lib.rs:67-76 | an element is accepted exactly when its room name, seconds and style are present, the width text can be cut out and the width decodes; the reservation has the element's room name and start, and its length is the decoded width; otherwise the error is that of the first failing step, in the order room name, seconds, style, width slice, width parse |
| `Rooms.AttachAllSucceeds` | src/lib.rs:66-78 | the element loop succeeds exactly when every element is accepted; otherwise its error is that of the first refused element |
| `Rooms.AttachAllContents` | src/lib.rs:67-78 | after the element loop, the keys are unchanged and each room has gained exactly the reservations naming it, in element order |
| `Rooms.ScrapeContents` | src/lib.rs:42-80 | a successful scrape has one room per row name, filed under that name, with the floor and size of the last row of that name, holding exactly its own reservations |
| `Rooms.ScrapeSucceeds` | src/lib.rs:42-80 | a scrape succeeds exactly when every row and every reservation element is accepted |
| `Rooms.ScrapeRooms` | src/lib.rs:42-80 | the two loops over the mutable map compute the specified scrape, including the first failure |
| `Availability.RoomIsFree` | src/lib.rs:85-96 | the loop with its `free` flag and `break` returns true exactly when no reservation conflicts |
| `Availability.FreeRooms` | src/lib.rs:84-99 | visiting the keys in any order yields exactly the free rooms, under their keys |
| `Availability.ConflictMeansOverlap` | src/lib.rs:87-89 | for well-formed intervals, a flagged conflict is a real overlap |
| `Availability.ConflictsExactly` | src/lib.rs:87-89 | for well-formed intervals, a conflict is an overlap, except when the window covers the reservation and shares its start or end |
| `Availability.TouchingWindowIsFree` | src/lib.rs:87-89 | a window ending at the reservation's start, or starting at its end, does not conflict |
| `Availability.IdenticalWindowIsFree` | src/lib.rs:87-89 | a window equal to the reservation's interval does not conflict |
| `Availability.OverlapExamples` | src/lib.rs:87-89 | against `[1000,2000)`: `[500,1000]` and `[2000,2500]` are free; `[1000,1500]` and `[500,2500]` conflict; `[1000,2500]` is free |
| `Availability.AttachFreeStatus` | src/lib.rs:72-77 | attaching a reservation removes only its own room from the free set, and only when the reservation conflicts |
| `Availability.FreeRoomsAreRooms` | src/lib.rs:84-99 | the reported rooms form a sub-map of the scraped rooms |
| `Run.DefaultEnd` | src/lib.rs:105 | the default end is one hour after the start, wrapping below the start when the start is at or after 23:00 |
| `Run.ResolveWindow` | src/lib.rs:103-105 | the start is the parsed `--start` or the clock; without `--end` the end is the default end of the resolved start; with a valid start, the window exists exactly when the end argument parses; a failing start argument, or else a failing end argument, is that error |
| `Run.NoArgumentsGiveNextHour` | src/lib.rs:103-105 | with neither argument the window is from now to one hour later |
| `Run.DefaultEndFollowsStart` | src/lib.rs:103-105 | with `--start` given and no `--end`, the window does not depend on the clock, and its end is one hour after its start, modulo a day |
| `Run.Run` | src/lib.rs:102-112 | time errors come first, then scrape errors; otherwise the result is the free rooms of the scrape for the resolved window |
| `Run.ScrapeOneRoom` | src/lib.rs:42-80 | one room row and one 58-pixel element at second 0 give room A booked for `[0, 3600)` |
| `Run.OneRoomWindows` | src/lib.rs:84-99 | that room is reported free for 00:00–01:00 and for 01:00–02:00, and not for 00:30–01:30 |

## Left out

- The network fetch (src/lib.rs:45-46) is I/O. The model starts from the page's extracted attributes.
- HTML parsing and the CSS selectors (src/lib.rs:48-57, 66-70) belong to a foreign library. Rows and elements arrive as `RoomRow` and `ReservationElement` values.
- A missing cell and a missing `data-sort` attribute are one case per field in `RoomRow`. So when a later cell is missing and an earlier attribute is also missing, the source reports the cell and the model reports the attribute.
- The float arithmetic (src/lib.rs:11, 69-75) is not modelled. This covers `parse::<f64>` of `seconds` and of the width, the product with `SECONDS_PER_WIDTH_PX` (62.0689655172, an approximation of 3600/58), `.round()` and the `as u32` casts.
- `seconds` arrives as a whole number. The width-to-seconds step is the parameter `decode`.
- `Rooms.ReservationOf`: durations are natural numbers, so `end >= start` always holds. The source's saturating `as u32` cast of a negative width or start is not modelled.
- `Rooms.WidthText`: strings are sequences of characters. Rust slices `style` by byte offsets, which agree with character offsets for ASCII styles only. The panic on a non-ASCII character boundary is not modelled.
- The clock and dates are outside the model. `Local::now()` is the parameter `now`. Only the time of day is modelled. Daylight-saving effects are not modelled: `with_hour` failing on a skipped local hour, and an hour added across a transition.
- `clap::ArgMatches` is a CLI library. The two arguments arrive as `Option<string>`.
- Printing and `format("%I:%M%P")` (src/lib.rs:83, 97) are output. `FreeRooms` returns the free rooms instead.
- The order of HashMap iteration is unspecified. The outer loop picks keys in any order, and its result is a map, which has no order.
- The error message texts are replaced by constructors of `ScrapeError` and `TimeError`. Most failures have their own constructor, with two merges. A missing cell and a missing attribute share one, as said above. A missing `seconds` attribute and one that is not a number both give `SecondsMissing`, because the float parse of `seconds` is not modelled.
- src/main.rs is an early prototype. Its only logic, the style slice at src/main.rs:27, is the same as src/lib.rs:71 and is modelled there.
