# Breakpoint resolver

A Dafny model of `GetBreakpoints`, the breakpoint resolver of the
groundworx utilities. The resolver answers queries against a table that maps
breakpoint names to size strings, such as `"medium" -> "768px"`:

- `_resolveRaw(key)` gives the number behind a key. A key that starts with
  digits is its own number. Any other key takes the leading number of its
  table value.
- `all(adjustment)` rebuilds the table. Every entry that resolves to a
  number becomes `"<n>px"`, shifted by the adjustment and clamped at 0.
  Every other entry is copied unchanged.
- `get(key, adjustment)` is one entry of `all(adjustment)`, or null.
- `resolve(key, adjustment)` turns a key or a numeric string into a number.
- `current(adjustment)` picks the largest numeric key that is not above the
  viewport width.

The files are:

- `wrappers.dfy` holds `Option`, which stands for JavaScript's `null`.
- `digits.dfy` holds the leading-digit parse (`parseInt`, `/^\d+/`) and the
  decimal formatting of `${n}px`, with their round trip.
- `sorting.dfy` holds the ascending numeric sort used by `current`.
- `get_breakpoints.dfy` holds the resolver.

The table is a parameter of every operation. It is the value the module
computes once at load time. `all` and `current` loop in the source, so they
are methods with loop invariants, proved against the function `Adjusted`
and against a maximum specification. `get`, `resolve` and `_resolveRaw` only
branch, so they are functions.

Behaviours the model keeps exactly as the code has them:

- A key that starts with digits resolves to that number and ignores its
  table value (src/get-breakpoints.js:120-122). In `resolve` such a key is
  never adjusted.
- An empty key resolves to nothing, even when the table holds an entry for
  it. `all` copies that entry unchanged.
- Every value with leading digits is rewritten as `"<n>px"`, whatever unit it
  had (`"12em"` becomes `"12px"`).
- `current` turns the table's keys into numbers, not its values. A table
  whose keys are names, such as `small`, `medium` and `large`, has no
  numeric key, so `current` returns null at every width
  (`NamedTableHasNoKeyNumbers`). Over `{small: "0px", medium: "768px",
  large: "1024px"}`, `current` gives null at width 800. Comparing the values
  instead would have given 768.
- `current` ignores its adjustment: `all` keeps the key set, and only keys
  are compared.
- `current` reads its width from `el`, which nothing in the module declares
  (src/get-breakpoints.js:81). In the model the width is an explicit
  parameter.

## Model

| member | source | states |
|---|---|---|
| Digits.LeadingDigits | src/get-breakpoints.js:126-127 | the `/^\d+/` match is a prefix made only of digits, and the character after it is not a digit |
| Digits.ParseLeadingInt | src/get-breakpoints.js:120-121 | `parseInt` fails exactly when the text is empty or its first character is not a digit |
| Digits.DigitsValue | src/get-breakpoints.js:121 | the value `parseInt` reads from a digit run, which is 0 exactly when every digit is '0' |
| Digits.NatToString | src/get-breakpoints.js:32 | `${n}` is a non-empty digit string without a leading zero that spells `n` back |
| Digits.Px | src/get-breakpoints.js:32 | the template `${n}px` ends in `px`, and the digits before it spell `n` |
| Digits.ParseLeadingIntOfRun | src/get-breakpoints.js:126-127 | text that starts with a digit run parses to that run's value, whatever non-digit text follows |
| Digits.PxRoundTrip | src/get-breakpoints.js:32 | parsing `${n}px` gives back `n`, and the text ends in `px` |
| Digits.NatToStringOfDigits | src/get-breakpoints.js:32 | formatting the value of a canonical digit string gives that string back |
| Sorting.Insert | src/get-breakpoints.js:84 | inserting into a sorted sequence keeps it sorted and adds exactly that element |
| Sorting.SortAsc | src/get-breakpoints.js:84 | the sort `(a, b) => a - b` returns an ascending permutation of its input |
| GetBreakpoints.ResolveRaw | src/get-breakpoints.js:117-131 | empty key gives null; a key with leading digits gives that number whatever the table holds; any other key gives its value's leading number, or null when the key is absent or the value has none |
| GetBreakpoints.AdjustValue | src/get-breakpoints.js:24-30 | the adjusted number is `max(0, n + adjustment)`, so skipping the step when the adjustment is 0 changes nothing |
| GetBreakpoints.Adjusted | src/get-breakpoints.js:17-38 | `all` has exactly the key set of the table |
| GetBreakpoints.All | src/get-breakpoints.js:16-39 | the `for…in` loop builds exactly the adjusted table, one entry per key |
| GetBreakpoints.AdjustEntry | src/get-breakpoints.js:20-35 | the entry written for one key: an unresolved entry is the stored value; a resolved one reads back as its number shifted by the adjustment and clamped at 0 |
| GetBreakpoints.AdjustedResolvedEntry | src/get-breakpoints.js:23-32 | an entry that resolves to `n` becomes `"<max(0, n + a)>px"`, exactly `"<n>px"` when `a` is 0, and its number reads back as that value |
| GetBreakpoints.AdjustedUnresolvedEntry | src/get-breakpoints.js:33-35 | an entry that does not resolve is copied unchanged for every adjustment |
| GetBreakpoints.AdjustedZeroKeepsCanonical | src/get-breakpoints.js:23-32 | with adjustment 0, a key that does not start with digits and whose value is already `<digits>px` without leading zeros keeps that value |
| GetBreakpoints.AdjustedEntryIsNormalised | src/get-breakpoints.js:20-35 | one entry of `all(a)` passed again through `all(0)` keeps its value when `a` is 0 or its key does not start with digits |
| GetBreakpoints.AdjustedIsNormalised | src/get-breakpoints.js:17-38 | passing `all(a)` through `all(0)` changes nothing when `a` is 0 or no key starts with a digit |
| GetBreakpoints.NumericKeyDropsAdjustment | src/get-breakpoints.js:19-32 | a key that starts with digits gets `"<max(0, n + a)>px"` from its own number `n`, so `all(0)` on an adjusted table gives `"<n>px"` again, undoing that entry's adjustment for every `a` |
| GetBreakpoints.Get | src/get-breakpoints.js:47-50 | `get` is null for an absent key; for a resolvable entry it is `"<adjusted n>px"`; otherwise it is the stored value, or null when that is empty; it is never the empty string |
| GetBreakpoints.Resolve | src/get-breakpoints.js:58-73 | an empty key gives null; a key with leading digits gives that number; an unknown non-numeric key gives null |
| GetBreakpoints.ResolveIsAdjustedRaw | src/get-breakpoints.js:58-72 | `resolve` equals `_resolveRaw` with the adjustment applied, except for keys with leading digits, which are returned unadjusted |
| GetBreakpoints.ResolveAtZeroIsRaw | src/get-breakpoints.js:58-73 | with adjustment 0, `resolve` and `_resolveRaw` agree on every key |
| GetBreakpoints.ResolveNamed | src/get-breakpoints.js:66-72 | a named key whose value starts with `n` resolves to `max(0, n + adjustment)` |
| GetBreakpoints.Keys | src/get-breakpoints.js:84 | `Object.keys` lists every key of the table exactly once and nothing else |
| GetBreakpoints.KeyNumber | src/get-breakpoints.js:84 | `Number(key)` is a number exactly for all-digit keys, and on a non-empty such key it agrees with `parseInt` |
| GetBreakpoints.KeyNumbers | src/get-breakpoints.js:84 | `.map(Number)` without the NaNs holds exactly the numbers of the all-digit keys |
| GetBreakpoints.SortedKeyNumbers | src/get-breakpoints.js:84 | the sorted key numbers are exactly the numbers of the table's numeric keys |
| GetBreakpoints.LargestAtMostStep | src/get-breakpoints.js:84-88 | walking ascending numbers and keeping the last one not above the width keeps the largest such number seen so far |
| GetBreakpoints.Current | src/get-breakpoints.js:80-91 | the result is the largest numeric key not above the width, and null exactly when every numeric key is above it; non-numeric keys are never chosen and the adjustment plays no part |
| GetBreakpoints.NamedTableResolveMedium | src/get-breakpoints.js:58-72 | with `medium = "768px"`, `resolve("medium", 10)` is 778 |
| GetBreakpoints.NumericStringResolve | src/get-breakpoints.js:62-64 | `resolve("500", 50)` is 500 whatever the table |
| GetBreakpoints.NamedTableHasNoKeyNumbers | src/get-breakpoints.js:84-87 | a table keyed `small`, `medium`, `large` has no numeric key, so `current` returns null at every width |

## Left out

- The load-time table: `applyFilters('groundworx.breakpoints', …)` over the imported default table (src/get-breakpoints.js:1-8). These are calls into WordPress and a theme package. The resulting table is a parameter.
- `getWindowWidth` and `getContainerWidth` (src/get-breakpoints.js:97-111). They read the DOM. `current` takes the width as a parameter instead.
- The `el ? … : …` choice of width in `current` (src/get-breakpoints.js:81). `el` is not bound anywhere in the module, so as written that line throws. The model does not model the throw.
- Digits.ParseLeadingInt: models `parseInt` as the value of the leading run of ASCII digits. Leading whitespace, a sign, a `0x` prefix and precision loss above 2^53 are not modelled.
- GetBreakpoints.KeyNumber: models `Number(key)` only for all-digit keys, with the empty key giving 0. Every other key counts as NaN and is skipped. Keys such as `" 12 "`, `"1e3"`, `"0x10"` or `"12.5"`, which `Number` would accept, are not modelled. The sort order JavaScript gives NaN keys is not modelled either. This matters: the comparator `a - b` returns NaN for a NaN key, the sort treats that as "equal", and the order it produces is then implementation-defined. With keys `"1024"`, `"medium"` and `""`, the list `[1024, NaN, 0]` may stay as it is, and at width 2000 the loop then ends on 0. `Current`'s contract gives 1024. In the source, "the largest numeric key not above the width" holds only when the NaN keys leave the numeric keys in ascending order, for example when every numeric key is a canonical array index and so comes first in `Object.keys`.
- GetBreakpoints.All: adjustments are integers, so `Math.floor` (src/get-breakpoints.js:29) leaves the value unchanged. Fractional adjustments are not modelled. `${n}` is modelled as plain decimal digits, without JavaScript's exponent form for numbers of 10^21 and above.
- GetBreakpoints.Current: the width is an integer, not a JavaScript number that may be fractional.
- Keys are strings only. JavaScript numbers passed as keys to `resolve`, and inherited or prototype properties that `for…in` and `obj[key]` would reach, are not modelled.
- Iteration order of `for…in` and `Object.keys` is left open (the keys are chosen in any order). `all`'s result does not depend on it. `current`'s result in the source can depend on it through the NaN keys, as the `GetBreakpoints.KeyNumber` line above explains.
- src/hooks.js is not part of this model. It selects between `{}` and a constant object on the answer of a foreign viewport query.
