# Token store and scrolling-number arithmetic

A Dafny model of the two pieces of logic in the Kiwoom web application that
are more than presentation:

- `token_store.dfy` (module `TokenStore`): the server's brokerage access-token
  store. It keeps at most one token record in a file. `SaveToken` stamps the
  record with its creation time and overwrites the file. `LoadToken` is not a
  pure read: it returns nothing for an absent or unreadable file, deletes a
  record whose expiry has been reached and returns nothing, and otherwise
  returns the record. `DeleteToken` removes the file if it is there.
  `GetValidToken` projects the bearer string out of what `LoadToken` returns.
  The file is a slot `Store = Empty | Corrupt | Holds(TokenData)`. The wall
  clock is an explicit instant `now`. Whether the file-system call throws is
  an explicit `Io` argument. Each operation returns a `Step`: the slot
  afterwards and the operation's return value.
- `scrolling_number.dfy` (module `ScrollingNumber`): the integer arithmetic of
  the scrolling-number text effect. It covers the countdown loop that builds
  the strip of values (`generateRange`), the size of the visible window, the
  vertical-axis flag, and the start/end position table per direction. It also
  covers the value snapped from a strip position and the clamp applied before
  that value is reported.

Two behaviours of `loadToken` that are easy to misread:

- An expiry that does not decode to a valid date is NOT treated as expired.
  The code builds a `Date` from `expires_dt` and compares with `>=`. An invalid
  date makes that comparison false, so the record is returned and kept. In
  the model, `expires` is `Option<int>`, `None` stands for the invalid date,
  and `LoadInvalidExpiry` states the as-written behaviour.
- Content that is not readable as a record is not deleted. The catch path in
  `loadToken` only returns null; it performs no delete.

A throw inside `loadToken` is swallowed by its catch. That includes a throw
from the delete of an expired record, so such a record survives a failed
delete (`LoadSwallowsFault`). Throws from `saveToken` and `deleteToken`
propagate; the model returns them as `Failed` with the slot unchanged.

## Model

| member | source | states |
|---|---|---|
| TokenStore.SaveToken | packages/server/src/auth/token-manager.ts:16-29 | A save succeeds exactly when the write does not throw. The slot then holds the payload's token, expiry and type, stamped with `now`. A failing write is reported and leaves the slot as it was. |
| TokenStore.DeleteToken | packages/server/src/auth/token-manager.ts:63-73 | The slot is empty afterwards exactly when the delete reports success. Deleting an empty slot always succeeds and changes nothing. Only a throwing unlink of an existing file fails, and the slot is then unchanged. |
| TokenStore.LoadToken | packages/server/src/auth/token-manager.ts:34-58 | A returned record is exactly the stored one, unexpired at `now`, and the slot is kept. The slot is either unchanged or emptied, and emptied only for an expired record. With a working file system a record is returned iff the slot holds an unexpired one. |
| TokenStore.GetValidToken | packages/server/src/auth/token-manager.ts:78-81 | Returns a token iff `LoadToken` returns a record, and then it is that record's token. The effect on the slot is the same as `LoadToken`'s. |
| TokenStore.LoadEmpty | packages/server/src/auth/token-manager.ts:36-38 | An empty slot loads as nothing and stays empty, whatever the file system does. |
| TokenStore.Expired | packages/server/src/auth/token-manager.ts:44-47 | The expiry instant itself counts as expired. A record whose expiry is an invalid date never expires. An expired record has a valid expiry at or before `now`. |
| TokenStore.LoadExpired | packages/server/src/auth/token-manager.ts:47-51 | With a working file system, a record with expiry at or before `now` (boundary included) loads as nothing and the slot is emptied. A second load also returns nothing. |
| TokenStore.ExpiredStaysExpired | packages/server/src/auth/token-manager.ts:44-51 | A record expired at some instant is expired at every later instant and never loads again. |
| TokenStore.LoadLive | packages/server/src/auth/token-manager.ts:44-53 | With a working file system, a record whose expiry lies after `now` is returned as stored, and the slot is unchanged. |
| TokenStore.LoadInvalidExpiry | packages/server/src/auth/token-manager.ts:44-47 | With a working file system, a record whose expiry is an invalid date is returned and kept at every instant. |
| TokenStore.LoadCorrupt | packages/server/src/auth/token-manager.ts:40-57 | Unreadable content loads as nothing and is not deleted. |
| TokenStore.LoadSwallowsFault | packages/server/src/auth/token-manager.ts:54-57 | A throwing read or unlink inside a load gives no record and leaves the slot untouched. |
| TokenStore.LoadIdempotent | packages/server/src/auth/token-manager.ts:34-58 | With a working file system, a second load at the same instant gives the same slot and result as the first. |
| TokenStore.DeleteIdempotent | packages/server/src/auth/token-manager.ts:63-73 | A successful delete empties the slot. Deleting again succeeds and keeps it empty, even if the file system would throw. |
| TokenStore.SaveOverwrites | packages/server/src/auth/token-manager.ts:16-23 | What a successful save leaves in the slot does not depend on the previous content. |
| TokenStore.SaveThenLoad | packages/server/src/auth/token-manager.ts:16-53 | With a working file system, round trip: after a save, a load before the saved expiry returns the payload's token, expiry and type with the save time. `GetValidToken` then returns the payload's token. |
| TokenStore.SaveThenLoadExpired | packages/server/src/auth/token-manager.ts:16-51 | With a working file system, after a save, a load at or after the saved expiry returns nothing and empties the slot, and so does `GetValidToken`. |
| TokenStore.DeleteThenGet | packages/server/src/auth/token-manager.ts:63-81 | After a successful delete, `GetValidToken` returns nothing and the slot stays empty. |
| ScrollingNumber.GenerateRange | packages/client/src/components/animate-ui/primitives/texts/scrolling-number.tsx:21-32 | Whenever the loop terminates (a positive step, or a negative end for any step) it returns the countdown from the end `max + sideItemsCount * step`, equal to the reference countdown for a positive step. It starts at that end, consecutive values differ by `step` (strictly descending), all values are non-negative, the last is below `step`, and it is empty iff the end is negative. |
| ScrollingNumber.CountdownShape | packages/client/src/components/animate-ui/primitives/texts/scrolling-number.tsx:26-31 | The reference countdown meets the element-by-element description the loop is proved against. |
| ScrollingNumber.CountdownNth | packages/client/src/components/animate-ui/primitives/texts/scrolling-number.tsx:27-29 | The i-th value of the strip is `end - i * step`. |
| ScrollingNumber.CountdownLength | packages/client/src/components/animate-ui/primitives/texts/scrolling-number.tsx:27-30 | The strip from a non-negative end has `end / step + 1` values and is empty for a negative end. |
| ScrollingNumber.RangeLength | packages/client/src/components/animate-ui/primitives/texts/scrolling-number.tsx:92-95 | For `number >= 0` and `sideItemsCount >= 0` the strip has `number / step + sideItemsCount + 1` values. |
| ScrollingNumber.DisplayedItemsCount | packages/client/src/components/animate-ui/primitives/texts/scrolling-number.tsx:84-87 | The window size is odd: one centre item with `sideItemsCount` items on each side. |
| ScrollingNumber.IsVertical | packages/client/src/components/animate-ui/primitives/texts/scrolling-number.tsx:88-91 | `isVertical` holds exactly for the directions laid out as a column. |
| ScrollingNumber.Flex | packages/client/src/components/animate-ui/primitives/texts/scrolling-number.tsx:250-258 | The layout is reversed exactly for top-to-bottom and left-to-right, the directions that travel towards negative coordinates. |
| ScrollingNumber.FlexInjective | packages/client/src/components/animate-ui/primitives/texts/scrolling-number.tsx:250-258 | No two directions share a layout. |
| ScrollingNumber.StartAgreesWithLayout | packages/client/src/components/animate-ui/primitives/texts/scrolling-number.tsx:180-207 | For a positive item size and side count, the strip starts on the positive side exactly when its layout is reversed. |
| ScrollingNumber.StartAndEnd | packages/client/src/components/animate-ui/primitives/texts/scrolling-number.tsx:180-207 | Bottom-to-top and right-to-left start at `-itemsSize * sideItemsCount` and move forward by `itemsSize * (length - 1 - sideItemsCount)`. Top-to-bottom and left-to-right start at `+itemsSize * sideItemsCount` and move the same distance backwards. The end lies `itemsSize * (length - window)` from the origin. |
| ScrollingNumber.PositionsMirror | packages/client/src/components/animate-ui/primitives/texts/scrolling-number.tsx:187-207 | Top-to-bottom mirrors bottom-to-top. Right-to-left shares bottom-to-top's table and left-to-right shares top-to-bottom's. |
| ScrollingNumber.Bounded | packages/client/src/components/animate-ui/primitives/texts/scrolling-number.tsx:244 | For `number >= 0` the reported value lies in `[0, number]`. A value already in range is reported unchanged. |
| ScrollingNumber.BoundedIsNearest | packages/client/src/components/animate-ui/primitives/texts/scrolling-number.tsx:244 | The clamp is the projection onto `[0, number]`: no point of the interval is nearer to the snapped value. Clamping twice is clamping once. |
| ScrollingNumber.SnappedValue | packages/client/src/components/animate-ui/primitives/texts/scrolling-number.tsx:220-228 | For a positive step the snapped value is a multiple of `step` and at least `sideItemsCount * step`. Divided by `step` it is the index `abs(position) / itemsSize + sideItemsCount` rounded to the nearest integer, with halves rounded up. |
| ScrollingNumber.ReportedValue | packages/client/src/components/animate-ui/primitives/texts/scrolling-number.tsx:242-246 | The reported value is the snapped value, `0` or `number`, and it is the snapped value whenever that lies in `[0, number]`. For `number >= 0` it lies in `[0, number]`. |
| ScrollingNumber.RoundHalfUp | packages/client/src/components/animate-ui/primitives/texts/scrolling-number.tsx:227 | `Math.round`: the result is the integer nearest to `x`, with halves rounded up (`r - 0.5 <= x < r + 0.5`). |
| ScrollingNumber.SnapAtStart | packages/client/src/components/animate-ui/primitives/texts/scrolling-number.tsx:180-228 | At the initial position, in every direction, the snapped value is `2 * sideItemsCount * step`: the side offset is counted twice, once in the distance and once in the index. |
| ScrollingNumber.SnapAtItem | packages/client/src/components/animate-ui/primitives/texts/scrolling-number.tsx:220-228 | At a position `n` whole items from the origin, on either side, the snapped value is `(n + sideItemsCount) * step`. |
| ScrollingNumber.FinalOnItem | packages/client/src/components/animate-ui/primitives/texts/scrolling-number.tsx:180-207 | The final position is `abs(number / step - sideItemsCount)` whole items from the origin, in every direction. |
| ScrollingNumber.ClampAtFinal | packages/client/src/components/animate-ui/primitives/texts/scrolling-number.tsx:242-246 | The clamp turns the value snapped at the final position into `(number / step) * step` when `number / step >= sideItemsCount`, and into `number` otherwise. |
| ScrollingNumber.FinalReport | packages/client/src/components/animate-ui/primitives/texts/scrolling-number.tsx:180-248 | When the strip rests at its final position, the reported value is the largest multiple of `step` not above `number`, or `number` itself when the range is shorter than the window. A `number` that is a multiple of `step` is reported exactly. |

## Left out

- File-system mechanics: `existsSync`, `readFileSync`, `writeFileSync`, `unlinkSync`, the path join and console logging. They are abstracted to the single slot plus the `Io` argument.
- JSON serialisation and parsing: a file that does not parse to a record is the `Corrupt` slot. A JSON value that parses but is not an object (a number, say) is not distinguished from a record; `loadToken` would return it as is.
- Decoding `expires_dt` with the JavaScript `Date` constructor, and the wall clock. Both are foreign library behaviour. The decoded expiry is an `Option<int>` instant and `now` is an integer.
- TokenStore.SaveToken: `created_at` is an ISO-8601 string in the source. The model stores the integer instant it is printed from.
- TokenStore.SaveToken: a write that throws part-way could leave a torn file. The model assumes a failed write leaves the old content.
- Races between concurrent requests on the token file: request handling is taken to be sequential.
- The session-bound login, logout and auth-check procedures. `packages/server/src/trpc.ts` only holds demo procedures, so these procedures are not part of this model.
- Client-side auth gating and redirects in the router: router and query-cache glue around a one-line conjunction.
- The static brokerage API catalogue, the environment-variable schema, the query-string builder and the other UI primitives: no logic beyond library calls. The catalogue repeats `ka10060`, so no uniqueness claim is made.
- The spring animation, the in-view timer, the completion callback (`val >= number * 0.99`) and the rendered items. These are timers, DOM events and floating-point numerics. Positions are integers; the fractional positions the spring passes through are not modelled.
- ScrollingNumber.GenerateRange: JavaScript numbers are doubles. The model uses unbounded integers, so fractional steps and rounding are not modelled. With a step `<= 0` the source never returns (it pushes until memory runs out) when the end is non-negative and returns `[]` otherwise; the precondition excludes only the non-terminating case.
- ScrollingNumber.SnappedValue: requires `itemsSize > 0` (also on `ReportedValue`): with `itemsSize = 0` every position is 0 and the index is `0/0 = NaN`, which the clamp lets through; negative sizes are not modelled.
- ScrollingNumber.ReportedValue: requires `itemsSize > 0` for the same reason as `SnappedValue`.
- ScrollingNumber.StartAndEnd: the `default` branch of the direction switch cannot be reached with the four-valued direction type. It would give bottom-to-top's positions.
- ScrollingNumber.Bounded: for a negative `number` the clamp can report `0`, which lies above `number`. The model keeps this and only promises the interval for `number >= 0`.
