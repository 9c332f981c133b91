# Packing checklist: verification engine and URL state codec

A Dafny model of the logic in `checklist-logic.js` of the packing-checklist web page. The page
shows one pack's items. The user ticks off simple items, or the sub-items of a group, or a
group's own checkbox. The set of verified top-level item indices is kept in the page URL as
the query parameter `v`, so a reloaded or shared link resumes where it left off.

Modules:

- `Wrappers` (`wrappers.dfy`): `Option`, standing for JavaScript's `null`, `undefined` and `NaN`.
- `Text` (`text.dfy`): the JavaScript built-ins the codec depends on, for integer values:
  `split`, `join`, `trim` (ECMAScript white space and line terminators), `parseInt(s, 10)`
  (leading white space, optional sign, longest digit prefix, otherwise NaN) and the decimal
  rendering of an integer.
- `StateCodec` (`state_codec.dfy`): `updateUrlState`'s sort-and-join (`Encode`, `UrlParam`)
  and `getVerifiedFromUrl` (`Decode`, `DecodeParam`), with the round trip
  `Decode(Encode(S)) == S` proved for every finite set of integers.
- `Checklist` (`checklist.dfy`): the item data model, `checkGroupComplete`, the sub-item id
  scheme and lookup, and the class `Engine`. The class holds the page's module-level state:
  `items` is `packItems`, `verified` is `verifiedIndices` and `pending` is `itemsPendientes`.
  Its constructor `Init` models `initChecklist`. `VerifyCheckbox` and `VerifySubItem` model
  the two halves of `verificarItem`. The object invariant `Valid()` (the predicate
  `Consistent` on the fields) is set up by `Init` and kept by each method.
- `ChecklistScenarios` (`scenarios.dfy`): client methods that drive one session through the
  engine's contracts alone. One is a fresh pack `[A, Group{x, y}, B]`, checking the count
  after every click. Another is a session resumed from `v=0,1`, one is a link that is already
  complete, and one is a group with no sub-items.

Modelling choices:

- Items are a tagged union, `Simple | Group(subs)`. The code tells the two kinds apart in two
  different ways. The render loop uses `esGrupo === true && Array.isArray(items)`
  (checklist-logic.js:188). The click handler uses a plain truthy `esGrupo`
  (checklist-logic.js:89, 122). The union makes every item one kind or the other everywhere,
  so the shapes on which the two tests disagree cannot be represented.
- A sub-item's `verificado` is a `bool`. The code reads it in two ways. The click handler
  ignores a sub-item whose flag is truthy (checklist-logic.js:128). `checkGroupComplete`
  accepts only the value `true` (checklist-logic.js:48). With a `bool` the two readings
  coincide. The model therefore cannot show a sub-item whose flag is truthy but not `true`,
  such as `1` or `"yes"`, in a pack. In the code such a sub-item can never be clicked, so
  its group can never become complete through its sub-items.
- `Init` counts from 0, like the module-level `itemsPendientes = 0` that `initChecklist`
  only ever increments. It is therefore the first and only initialisation of a page load.
- Clicks come from rendered elements only. A group that `initChecklist` skipped has no
  sub-item listeners, so `VerifySubItem` requires that `index` is not one of the skipped
  positions. From that, the model proves that the sub-item path never meets a group that is
  already verified, a check the code leaves out at line 138.
- `pending` counts positions `0..|items|-1` that are not verified. An index read from the URL
  may be out of range or negative, and the code keeps such an index in the set without ever
  counting it. So the invariant is `pending == |items| - |verified ∩ [0, |items|)|`. The
  simpler `|items| - |verified|` does not hold.
- Negative tokens are kept: `"2,x,5,-1,3"` decodes to `{2, 5, -1, 3}`, because line 32
  drops only NaN (`StateCodec.DecodeMixedTokens`).
- The ghost field `scheduled` records, in order, each deferred removal the code schedules
  (lines 109-116 and 147-153). The ghost field `signals` counts the completion signal that
  `initChecklist` raises at once (lines 258-260).

## Model

| member | source | states |
|---|---|---|
| `StateCodec.SortedElements` | checklist-logic.js:11 | the verified set as a sequence holding each element exactly once, in strictly ascending numeric order (the `a - b` comparator) |
| `StateCodec.Encode` | checklist-logic.js:11 | the string is empty exactly when the set is; otherwise splitting it at `,` gives the decimal forms of the elements, ascending |
| `StateCodec.UrlParam` | checklist-logic.js:11-18 | `v` is deleted exactly when nothing is verified, otherwise it holds the non-empty encoded list |
| `StateCodec.Numbers` | checklist-logic.js:29-33 | the resulting set holds exactly the numbers among the parse results (NaN filtered out, duplicates merged) |
| `StateCodec.Decode` | checklist-logic.js:26-33 | empty text gives the empty set; otherwise n is in the result iff some trimmed token parses to n; total, no input fails |
| `StateCodec.DecodeParam` | checklist-logic.js:25-28 | an absent `v` gives the empty set; a present one is decoded |
| `StateCodec.RoundTrip` | checklist-logic.js:11-33 | `Decode(Encode(S)) == S` for every finite set of integers, negatives included |
| `StateCodec.ParamRoundTrip` | checklist-logic.js:14-28 | reading back the parameter `updateUrlState` writes, or its absence, gives the verified set |
| `StateCodec.DecodeMixedTokens` | checklist-logic.js:30-32 | for all integers a, b, c, d, the text `<a>,x,<b>,<c>,<d>` decodes to `{a, b, c, d}`: the junk token is dropped and negative tokens are kept (so `"2,x,5,-1,3"` gives `{2, 5, -1, 3}`) |
| `StateCodec.ParseFourNumbersAndJunk` | checklist-logic.js:31 | four numeric tokens parse to their numbers, whatever the token between the first two is |
| `StateCodec.FourNumbers` | checklist-logic.js:29-32 | four numbers and one NaN give exactly the set of the four numbers |
| `StateCodec.ParseTokens` | checklist-logic.js:31 | one parse result per token, in order; result k is `parseInt` of token k trimmed |
| `StateCodec.Decimals` | checklist-logic.js:11 | one decimal rendering per number, in order, none of them containing the comma |
| `Text.Split` | checklist-logic.js:30 | at least one piece, no piece contains the delimiter, and joining the pieces gives the text back |
| `Text.SplitJoin` | checklist-logic.js:11 | splitting a join of delimiter-free parts gives the parts back |
| `Text.TrimStart` | checklist-logic.js:31 | removes exactly the leading white space: a suffix of the input, all of the removed part white space, not starting with white space |
| `Text.TrimEnd` | checklist-logic.js:31 | removes exactly the trailing white space: a prefix of the input, all of the removed part white space, not ending with white space |
| `Text.DigitPrefix` | checklist-logic.js:31 | the longest prefix of decimal digits |
| `Text.ParseIntOfIntToString` | checklist-logic.js:31 | `parseInt` reads every integer's decimal rendering back as that integer |
| `Text.ParseIntStopsAtNonDigit` | checklist-logic.js:31 | `parseInt` takes an optional sign and the longest digit run and ignores what follows |
| `Text.ParseIntNaN` | checklist-logic.js:31-32 | a token that starts with neither white space nor a digit, and has no digit right after a leading sign, is NaN, whatever follows: `"x"`, `"x y"`, `""`, `"-"`, `"+-1"` |
| `Text.ParseInt` | checklist-logic.js:31 | `parseInt(s, 10)`: leading white space, optional sign, longest digit run, NaN otherwise; it has no contract of its own, and `ParseIntOfIntToString`, `ParseIntStopsAtNonDigit` and `ParseIntNaN` state its behaviour |
| `Text.TrimStartUnpadded` | checklist-logic.js:31 | text that does not start with white space reaches the sign-and-digits step of `parseInt` unchanged |
| `Text.UnsignedOfSigned` | checklist-logic.js:31 | after an optional sign, `parseInt` reads the rest of the text when that rest does not start with another sign |
| `Text.Trim` | checklist-logic.js:31 | `trim()`: `TrimEnd` after `TrimStart`; it has no contract of its own, and `Text.TrimTrimmed`, `Text.TrimUnpadded` and `Text.TrimIdempotent` state its behaviour |
| `Text.TrimTrimmed` | checklist-logic.js:31 | the result is never longer than the input and has no white space left at either end |
| `Text.TrimUnpadded` | checklist-logic.js:31 | text with no white space at either end is left as it is |
| `Text.TrimIdempotent` | checklist-logic.js:31 | trimming twice is the same as trimming once |
| `Text.Join` | checklist-logic.js:11 | `join(',')`; it has no contract of its own, its partners are `Text.Split` (joining the pieces gives the text back) and `Text.SplitJoin` (splitting a join of comma-free parts gives the parts back) |
| `Text.IntToString` | checklist-logic.js:11 | non-empty, with no white space at either end, made of digits and `-` only; `Text.ParseIntOfIntToString` reads it back |
| `Text.NatToStringInjective` | checklist-logic.js:205 | different naturals render differently |
| `Checklist.GroupComplete` | checklist-logic.js:43-49 | true iff every sub-item is verified, vacuously for none |
| `Checklist.FindSub` | checklist-logic.js:126 | the first sub-item carrying the id, or none when no sub-item carries it |
| `Checklist.SubId` | checklist-logic.js:205 | `sub-<index>-<subIndex>`; it has no contract of its own, and `Checklist.SubIdInjective` states that it is injective |
| `Checklist.SubIdInjective` | checklist-logic.js:205 | `sub-<index>-<subIndex>` ids of different positions differ, within a group and across groups |
| `Checklist.AssignIds` | checklist-logic.js:203-206 | sub-item j of group `index` gets id `sub-<index>-<j>`, nothing else changes |
| `Checklist.FindSubSameIds` | checklist-logic.js:126 | the lookup depends on the ids alone: two sub-item lists with the same ids, flags aside, find the same position |
| `Checklist.Rendered` | checklist-logic.js:188-206 | the item keeps its kind and display fields; each sub-item keeps its display fields and flag and gets the id `sub-<index>-<j>` |
| `Checklist.FindAssigned` | checklist-logic.js:125-126 | after the render loop, the id `sub-<index>-<j>` finds exactly sub-item j |
| `Checklist.InitialItems` | checklist-logic.js:178-206 | pre-verified positions are left as they are; rendered groups get their sub-item ids |
| `Checklist.MarkAll` | checklist-logic.js:98 | every sub-item of a group becomes verified and the group complete; ids and display fields unchanged |
| `Checklist.MarkSub` | checklist-logic.js:131 | only sub-item j's flag changes, to verified |
| `Checklist.SubTarget` | checklist-logic.js:81-128 | a sub-item click takes effect only on a known group, with a known id, whose sub-item is not yet verified; conversely, whenever the id finds an unverified sub-item of a group, the click takes effect on that sub-item |
| `Checklist.LastSubEqualsGroupCheckbox` | checklist-logic.js:135-138 | completing a group through its last sub-item leaves it exactly as the group checkbox does |
| `Checklist.MarkAllAbsorbsMarkSub` | checklist-logic.js:98-131 | a group checkbox click after a sub-item click leaves the group as the checkbox click alone does |
| `Checklist.MarkSubs` | checklist-logic.js:131 | after a sequence of sub-item clicks, sub-item k is verified iff it was before or k was clicked; kind, display fields, length and ids unchanged |
| `Checklist.ThreeSubsEqualCheckbox` | checklist-logic.js:98-142 | for a group of three sub-items, clicking sub-items 0, 1 and 2 in turn, starting from the untouched group, gives the same group as one group checkbox click |
| `Checklist.EverySubEqualsGroupCheckbox` | checklist-logic.js:98-142 | clicking every sub-item, in any order and with repeats, leaves the group exactly as one group checkbox click does |
| `Checklist.UnverifiedCount` | checklist-logic.js:178-182 | the number of unverified positions is the item count minus the number of verified positions in range |
| `Checklist.OutOfRangeIgnored` | checklist-logic.js:178-182 | pre-verified indices outside the pack change neither the rendered items nor the count |
| `Checklist.Consistent` | checklist-logic.js:98-153 | the engine invariant: the count is the number of unverified positions, skipped positions were pre-verified, a verified rendered group is complete, rendered sub-items carry `sub-<i>-<j>`, and one removal is scheduled per clicked position; `InitialConsistent`, `VerifiedKeepsConsistent` and `MarkedKeepsConsistent` establish and keep it |
| `Checklist.Engine.Valid` | checklist-logic.js:98-153 | `Consistent` of the engine's fields; it is required and ensured by every method of `Engine` |
| `Checklist.InitialConsistent` | checklist-logic.js:178-232 | the state `initChecklist` leaves satisfies the engine invariant: count, rendered ids, nothing scheduled |
| `Checklist.VerifiedKeepsConsistent` | checklist-logic.js:98-116 | verifying an unverified position whose group is complete, lowering the count by one and scheduling one removal keeps the invariant |
| `Checklist.MarkedKeepsConsistent` | checklist-logic.js:131 | setting a sub-item flag of an unverified group, with nothing else changed, keeps the invariant |
| `Checklist.VerifyOne` | checklist-logic.js:103 | verifying a new in-range position removes exactly it from the unverified positions and adds it to the verified ones |
| `Checklist.Engine.PendingMatchesVerified` | checklist-logic.js:103 | under the invariant, `pending == |items| - |verified ∩ [0, |items|)|` and `0 <= pending <= |items|` |
| `Checklist.Engine.CompleteIffNothingPending` | checklist-logic.js:113 | the count is 0 exactly when every item is verified |
| `Checklist.Engine.Init` | checklist-logic.js:168-260 | the engine's own copy of the items with ids assigned; the count of positions not pre-verified; a completion signal iff the count is 0 and the pack is non-empty |
| `Checklist.Engine.VerifyCheckbox` | checklist-logic.js:81-119 | unknown or verified index: no change; otherwise (group: all sub-items marked first) index added, count minus exactly one, one removal scheduled, invariant kept |
| `Checklist.Engine.VerifySubItem` | checklist-logic.js:122-155 | unknown or verified sub-item: no change; otherwise only that flag, plus, when the group becomes complete, the index added, count minus one, one removal scheduled; the group was not verified before |
| `ChecklistScenarios.GroupBySubItems` | checklist-logic.js:131-142 | clicking the group's two sub-items in turn verifies position 1, lowers the count from 2 to 1 and schedules one more removal |
| `ChecklistScenarios.FirstSubItem` | checklist-logic.js:125-131 | clicking `sub-1-0` of the sample pack marks only that sub-item; the count and the verified set are unchanged |
| `ChecklistScenarios.LastSubItem` | checklist-logic.js:125-142 | clicking `sub-1-1` then completes the group: position 1 is verified, the count drops to 1 and one more removal is scheduled |

## Left out

- DOM work is not modelled: the `innerHTML` templates, `classList`, `closest`, `dataset`,
  listeners, `alert`, and the display of name, quantity and unit (lines 173-256 and 55-58).
  The `Info` record carries those fields but nothing reads them.
- Persistence: `window.history.replaceState` and `window.location` are not modelled (lines
  12-20 and 61-62). The value written at line 106 and line 139 is `UrlParam(verified)` of the
  new state.
- Checklist.Engine.VerifyCheckbox: the `updateUrlState()` call is not part of its state,
  because the URL is outside the model. The same holds for Checklist.Engine.VerifySubItem.
- Timers: the `setTimeout` callbacks (lines 59-63, 109-116, 147-153 and 296) are not
  modelled. The model records each scheduled removal in `scheduled` but never fires one.
  Each callback tests `itemsPendientes <= 0` by itself, so two quick final verifications can
  both show the completion message. The model makes no claim that the signal fires exactly
  once, and `signals` counts only the one `initChecklist` raises.
- `mostrarPackCompleto`'s message and redirect are navigation side effects (lines 55-64).
- Loading: the `fetch` of `packs.json`, the JSON parsing and the catalog shape check are
  network I/O (lines 265-298). The pack lookup by id and its error redirect (lines 160-166)
  are also left out: `Init` takes the resolved item list.
- The deep clone at line 170 is the engine holding its own `seq` value of the items.
  `currentPackId` (line 168) is stored but never read, and is left out.
- index-logic.js is not part of this model; it only fetches, renders pack cards and
  navigates.
- Number representation: indices are unbounded integers. JavaScript numbers lose precision
  beyond 2^53, print 10^21 and larger in exponent form, and have a `-0` that `Set` merges
  with `0`.
- Text: URL percent-decoding by `URLSearchParams` happens before `getVerifiedFromUrl` and is
  not modelled; `Decode` receives the decoded value.
