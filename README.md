# Verified model of the functional-programming examples in `session1/example2.js`

The repository is a set of JavaScript language demonstrations. The one file
with behaviour worth stating is `session1/example2.js`, and this project
models its logic in Dafny:

- **Recursion** (`recursion.dfy`). `deepPick(fields, object)` resolves a
  dot-separated path in a nested record. It splits the path on `"."`, looks up
  the first segment, and recurses on the remaining segments joined back with
  `"."`. The model keeps that split/re-join recursion. Termination follows
  from `Split(Join(rest)) == rest`: each call has one segment fewer. A missing
  object defaults to `{}`, so a missing key, or a key read from a scalar,
  yields an absent value (`None`) at every later step, never an error.
  `countdown(value, fn)` is modelled by the values it hands to `fn` and by
  the value it returns.
- **Composition** (`composition.dfy`). `compose(...fns)` is a left fold with
  `reduce`, so `compose(f1, …, fn)(x) == fn(…f1(x))`. With no functions it
  is the identity.
- **Civilian clock** (`clock.dfy`). There are two versions. The functional
  pipeline is `serializeClockTime`, then `convertToCivilianTime`
  (`appendAMPM` then `civilianHours`), then `doubleDigits` (`prependZero`
  on hours, minutes and seconds), then `formatClock("hh:mm:ss tt")`. The
  imperative `getClockTime` rewrites the fields of one `time` record in
  place. It is a `TimeRecord` class here. The method is proved to return the
  same text as the pipeline for every hour, minute and second. A clock field
  is `Num(n)` until a zero is prepended, and `Text(s)` after that, because
  `"0" + n` turns it into a string. Comparisons on a field go through
  JavaScript's number conversion.
- **Data transformations** (`transforms.dfy`): `cutSchool` (filter),
  `editName` (map), the max reducer, the distinct reducer (with `indexOf`),
  and the `hashColors` reducer, which writes into its accumulator.
- **Immutability** (`immutability.dfy`). The pure `rateColor` and `addColor`
  are functions on values. The mutating versions are methods on objects
  (`ColorObject`, `ColorList`), and their effect is stated through the pure
  versions.
- **JavaScript built-ins** (`jsstrings.dfy`): `String(n)` for integers,
  `Number(s)`, `split`/`join` on one character, and `replace` with a string
  pattern (first occurrence only). `wrappers.dfy` holds `Option`, which
  stands for `undefined`.

The current time is passed in as `hours`, `minutes` and `seconds` instead of
being read from `new Date()`. Console output, timers and the DOM are not
modelled.

Midnight is shown as `00:mm:ss AM` by both clock versions, since
`civilianHours` subtracts 12 only above 12. The model keeps that.

An empty path splits into `[""]`, as `"".split(".")` does. It therefore looks up
the key `""`. A path such as `"a."` looks up `"a"` and then `""`.

## Model

| member | source | states |
|---|---|---|
| `Composition.Reduce` | session1/example2.js:431-434 | the `reduce` over the functions equals the nested application `fn(…f1(arg))`, first function innermost; with no functions it is `arg` |
| `Composition.Compose` | session1/example2.js:429-434 | `compose(f1,…,fn)` is the function `x => fn(…f1(x))`, for every argument |
| `Composition.ComposeSplit` | session1/example2.js:429-434 | composing `a + b` runs all of `a`, then all of `b` on its output |
| `Composition.ComposeAppliesLast` | session1/example2.js:429-434 | the function listed last is applied last |
| `Composition.ComposeTwo` | session1/example2.js:429-434 | `compose(f, g)(x) == g(f(x))` |
| `Composition.ComposeThree` | session1/example2.js:429-434 | `compose(f, g, h)(x) == h(g(f(x)))` |
| `Composition.ComposeAddOneThenDouble` | session1/example2.js:429-434 | `compose(add1, double)(3) == 8`: add1 runs first |
| `Clock.SerializeClockTime` | session1/example2.js:492-497 | the three fields are numbers (`Num`, not text) reading as the given hours, minutes and seconds, and `ampm` is unset, so it prints as `"undefined"` |
| `Clock.CivilianHours` | session1/example2.js:498-504 | the hours change exactly when they are above 12, and then they drop by 12; minutes, seconds and marker are unchanged |
| `Clock.AppendAMPM` | session1/example2.js:505-509 | the marker is `"PM"` exactly when the hours are 12 or more, else `"AM"`; the three fields are unchanged |
| `Clock.ConvertToCivilianTime` | session1/example2.js:526-530 | `appendAMPM` runs first, so the marker is `"PM"` exactly when the original hours are 12 or more; the hours then drop by 12 exactly when above 12; minutes and seconds are kept |
| `Clock.ConvertToCivilianTimeHours` | session1/example2.js:526-530 | for hours 0..23, the result is `h - 12` when `h > 12`, else `h`, so it lies in 0..12; the marker is PM exactly when `h >= 12`; the 24-hour value can be recovered from the two; minutes and seconds are kept |
| `Clock.PrependZero` | session1/example2.js:518-524 | for every record, the keyed field becomes its zero-padded form, and the other fields and the marker are untouched |
| `Clock.PrependZeroField` | session1/example2.js:518-524 | only the keyed field can change, and it changes exactly when it is below 10; it then prints as `"0"` followed by its old text; a number 0..99 becomes two characters with the same value; other keys and the marker are untouched |
| `Clock.ZeroPaddedTwoDigits` | session1/example2.js:521-523 | padding a number 0..99 gives two decimal digits that read back as that number |
| `Clock.DoubleDigits` | session1/example2.js:532-537 | `doubleDigits` pads hours, minutes and seconds once each and keeps the marker |
| `Clock.FillTemplate` | session1/example2.js:514-517 | with numeric text for the three fields, the four chained replaces on `"hh:mm:ss tt"` give `hours + ":" + minutes + ":" + seconds + " " + ampm` |
| `Clock.FillClock` | session1/example2.js:513-517 | the function `formatClock(format)` returns, applied to one record: on `"hh:mm:ss tt"` with numeric fields it yields `hours + ":" + minutes + ":" + seconds + " " + ampm` |
| `Clock.FormatClock` | session1/example2.js:512-517 | for every record with numeric fields, `formatClock("hh:mm:ss tt")` yields `hours + ":" + minutes + ":" + seconds + " " + ampm` |
| `Clock.CivilianRecord` | session1/example2.js:492-537 | the record the pipeline formats is the three padded civilian fields, with the marker chosen from the 24-hour value |
| `Clock.CivilianClockText` | session1/example2.js:538-548 | one tick of the pipeline displays the zero-padded civilian hour, minutes and seconds, separated by `:`, then a space and the marker chosen from the 24-hour value |
| `Clock.CivilianClockTextShape` | session1/example2.js:538-548 | for a time of day the displayed text has 11 characters: two decimal digits of civilian hour, `:`, two digits of minute, `:`, two digits of second, a space, then `AM` or `PM`; each pair reads back as its value |
| `Clock.TimeRecord.constructor` | session1/example2.js:454-459 | the record starts with the three numbers and `ampm` set to `"AM"` |
| `Clock.GetClockTime` | session1/example2.js:449-484 | the imperative version returns the same text as the functional pipeline, for every hour, minute and second |
| `Clock.Both` | session1/example2.js:423-426 | `civilianHours` runs first: the hours are reduced as in `convertToCivilianTime`, but the marker is read from the reduced hours |
| `Clock.BothMarksAfternoonAM` | session1/example2.js:421-426 | `both` (civilianHours before appendAMPM) marks every hour 13..23 `"AM"`, where `convertToCivilianTime` marks it `"PM"` |
| `JsStrings.SplitJoin` | session1/example2.js:381-383 | splitting the joined remaining segments gives the same segments back, so each recursive call has one segment fewer |
| `JsStrings.JoinSplit` | session1/example2.js:381-383 | joining the pieces of a split gives the path back |
| `JsStrings.SplitAround` | session1/example2.js:381 | splitting `a + "." + b` splits `a` and `b` separately |
| `JsStrings.NumberRoundTrip` | session1/example2.js:521-522 | `Number(String(n)) == n` for every integer: a field shown without padding reads back as its value (for `"0" + n` this holds only when `0 <= n`, which `Clock.ZeroPaddedTwoDigits` states) |
| `JsStrings.ReplaceFirstAfter` | session1/example2.js:514-517 | `replace` rewrites the first occurrence of the placeholder when no earlier text can start a match |
| `JsStrings.ReplaceFirst` | session1/example2.js:514-517 | `replace` never grows the string by more than the replacement, and a pattern longer than the string changes nothing |
| `JsStrings.ReplaceFirstAt` | session1/example2.js:514-517 | when the pattern's first occurrence starts at `i`, `replace` gives `s[..i] + rep + s[i + n..]`, where `n` is the pattern's length |
| `JsStrings.ReplaceFirstAbsent` | session1/example2.js:514-517 | `replace` leaves a string in which the placeholder occurs nowhere unchanged |
| `JsStrings.ReplaceFirstAbsentExample` | session1/example2.js:514 | `"h:".replace("hh", x)` is `"h:"`, although `"h:"` starts with the placeholder's first letter |
| `Recursion.Countdown` | session1/example2.js:336-339 | for `value >= 0`, `fn` sees `value, value-1, …, 0` and the call returns 0; for a negative value, `fn` sees only that value, which is also returned |
| `Recursion.CountdownFromTen` | session1/example2.js:340-351 | `countdown(10, log)` logs 10 down to 0 |
| `Recursion.Index` | session1/example2.js:380-384 | `object[first]` with the `object = {}` default: present exactly when the object is a record holding the key, and then the value stored under it |
| `Recursion.DeepPick` | session1/example2.js:380-385 | a path with no `"."` is the single lookup `object[fields]`; below a missing value or a scalar the result is absent, whatever the path |
| `Recursion.DeepPickFollowsPath` | session1/example2.js:380-385 | `deepPick` equals a walk that does one lookup per segment of `fields.split(".")`, in order |
| `Recursion.DeepPickDescends` | session1/example2.js:381-384 | `deepPick(a + "." + b, o) == deepPick(b, deepPick(a, o))`, and the remaining path has fewer segments |
| `Recursion.DeepPickThroughKey` | session1/example2.js:381-384 | `deepPick(key + "." + rest, o) == deepPick(rest, o[key])` for a present key without a dot |
| `Recursion.DeepPickDanType` | session1/example2.js:377 | `deepPick("type", dan)` is `"person"` |
| `Recursion.DeepPickDanFirstName` | session1/example2.js:387-406 | `deepPick("data.info.fullname.first", dan)` is `"Dan"`, reached through `data`, `info` and `fullname` |
| `Recursion.DeepPickStopsAtScalar` | session1/example2.js:380-385 | with `{a: {b: 1}}`: `"a"` gives `{b: 1}`, `"a.b"` gives 1, and `"a.b.c"` is absent |
| `DataTransforms.CutSchool` | session1/example2.js:142-143 | the result never contains `cut`; every other value keeps its number of occurrences; the length drops by the number of `cut`s |
| `DataTransforms.CutSchoolKeepsOrder` | session1/example2.js:142-143 | filtering keeps order: cutting from `a + b` is cutting from `a`, then from `b` |
| `DataTransforms.CutSchoolExample` | session1/example2.js:144-145 | cutting `"Washington & Lee"` leaves `["Yorktown", "Wakefield"]` |
| `DataTransforms.EditName` | session1/example2.js:183-195 | same length and order; only items named `oldName` get the new name; every other field is kept |
| `DataTransforms.EditNameUndo` | session1/example2.js:183-195 | renaming back restores the list, when no item had the new name |
| `DataTransforms.EditNameIdempotent` | session1/example2.js:183-195 | editing twice is the same as editing once |
| `DataTransforms.EditNameExample` | session1/example2.js:173-181 | `updatedSchools[1]` is `"HB Woodlawn"` while `schools[1]` stays `"Stratford"`; the other items are the same |
| `DataTransforms.MaxFrom` | session1/example2.js:245 | the fold's result is at least its start value and every element, and it is the start value or one of the elements |
| `DataTransforms.MaxAge` | session1/example2.js:227-234 | the result is at least 0 and at least every age, and it is 0 or one of the ages |
| `DataTransforms.MaxAgeUnique` | session1/example2.js:245 | any value with those two properties is the reducer's result |
| `DataTransforms.MaxAgeExample` | session1/example2.js:226-243 | the max of `[21, 18, 42, 40, 64, 63, 34]` is 64 |
| `DataTransforms.IndexOf` | session1/example2.js:299 | `indexOf` is -1 exactly when the value is absent; otherwise it is the first position holding the value |
| `DataTransforms.DistinctStep` | session1/example2.js:298-301 | the step keeps the list when it holds the color and appends the color otherwise; a list without duplicates stays so, and gains exactly that color |
| `DataTransforms.Distinct` | session1/example2.js:297-303 | the result has no duplicates, holds exactly the input's values, and lists them in order of first occurrence |
| `DataTransforms.DistinctFromSnoc` | session1/example2.js:297-303 | reducing one more element is one more step of the reducer |
| `DataTransforms.DistinctFirstOccurrences` | session1/example2.js:297-303 | folding the step from `[]` has no duplicates, holds exactly the input's values, and orders them by first occurrence |
| `DataTransforms.DistinctColorsExample` | session1/example2.js:296-305 | `["red","red","green","blue","green"]` gives `["red","green","blue"]` |
| `DataTransforms.HashColors` | session1/example2.js:269-275 | every row's id is a key, and each key holds the `{title, rating}` of the last row with that id |
| `Immutability.RateColor` | session1/example2.js:25-29 | the copy has the new rating, with title and color kept |
| `Immutability.RateColorOverrides` | session1/example2.js:25-29 | rating twice keeps only the last rating; rating with the current rating changes nothing |
| `Immutability.AddColor` | session1/example2.js:58-60 | the new list is the old list followed by `{title}` |
| `Immutability.AddColorExample` | session1/example2.js:52-56 | adding `"Glam Green"` gives 4 entries while `list` keeps 3 |
| `Immutability.RateColorInPlace` | session1/example2.js:10-13 | the same object is returned, and its fields are now what the pure `RateColor` gives |
| `Immutability.AddColorInPlace` | session1/example2.js:43-48 | the same list is returned, and its entries are now what the pure `AddColor` gives |
| `Immutability.ColorLawnRatings` | session1/example2.js:14-29 | after the mutating `rateColor`, `color_lawn` reads 5; the pure `rateColor`, applied to a fresh `color_lawn` rated 0, returns rating 5 and leaves that record at 0 |

## Left out

- Console output (`console.log`, `console.clear`, `display(log)`), timers (`setInterval`, `setTimeout`, `oneSecond`) and `new Date()`: these are I/O. The clock takes hours, minutes and seconds as parameters, and `startTicking` is modelled by the text one tick would display (`CivilianClockText`).
- The delayed `countdown` (lines 354-361): it returns a timer handle from `setTimeout`.
- `Header` (DOM side effects), `userLogs`/`getFakeMembers` (console output and an undefined promise source), and `invokeIf` (it only picks which console callback runs).
- `selfEducate` (lines 66-112): the same mutate-versus-spread contrast as `rateColor`, which is modelled instead.
- The join, filter and map demonstrations that only print (`schools.join`, `wSchools`, `highSchools`, `schoolArray`), and the per-step logging of the first max reducer.
- `both(new Date())` (line 427) passes a `Date` object, which has no `hours` field. Only the composition order of `both` is modelled.
- `Recursion.Index`: only a record's own keys are found. JavaScript also reads inherited properties through the prototype chain, so `deepPick("toString", dan)` returns a function and `deepPick("constructor.name", dan)` returns `"Object"`; the model gives absent for both.
- `Recursion.Index`: reading a key from a string gives absent. JavaScript would return a character for an index key (`"person"["0"]`) or the length for `"length"`. A `null` intermediate value, which would throw, is not representable. Records hold only strings, integers and nested records.
- `JsStrings.ToNumber`: it reads only optionally negative decimal integer strings (and `""` as 0). Whitespace, `+`, fractions, exponents and hexadecimal forms are not recognised. Values are integers, so non-integer times cannot occur.
- `JsStrings.ReplaceFirst`: `$` patterns in the replacement string are not interpreted. The clock's replacements never contain `$`.
- `DataTransforms.HashColors`: an `id` of `"__proto__"` would, at line 271, replace the accumulator's prototype instead of adding a key. The model stores it as an ordinary key.
- `DataTransforms.HashColors`: the insertion order of the keys of the resulting object is not modelled, because a Dafny map has no order.
- `Recursion.Countdown`: values are integers. JavaScript also accepts fractions: `countdown(2.5, fn)` hands `fn` 2.5, 1.5, 0.5 and -0.5 and returns -0.5. The model does not represent that case.
- `JsStrings.NumberToString`: integers are unbounded here, while JavaScript numbers are IEEE-754 doubles. Above 2^53 not every integer is representable, and `String(n)` switches to exponent form from 1e21. Clock fields stay within 0..59, so the clock is unaffected.
- `Recursion.Countdown`: the callback is observed only through the values it receives. Its own effects and return values are not modelled, and the source ignores them.

## Findings

| source | as written | input that shows it | evidently intended | confidence | as-written member | corrected member |
|---|---|---|---|---|---|---|
| session1/example2.js:421-426 | `both` runs `civilianHours` before `appendAMPM`, so the marker is read from hours that are already reduced | hours 13 (1 PM): `civilianHours` gives 1, and `appendAMPM` then marks it `"AM"` | choose the marker from the 24-hour value, as `convertToCivilianTime` (lines 526-530) does | medium, not executed | `Clock.Both`, `Clock.BothMarksAfternoonAM` | `Clock.ConvertToCivilianTime`, `Clock.ConvertToCivilianTimeHours` |
