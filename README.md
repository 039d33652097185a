# InfiniteScroll: the segment-sequencing state machine

A model of the `InfiniteScroll` controller of `index.js` (the jQuery
infinite-scroll helper), restricted to what decides which segment is
fetched, when fetching is suppressed and what the callbacks see:

- the configuration dictionary with the constructor's defaults, and
  `editConfig`, which merges the caller's settings over them;
- `fetch()`, split at its suspension point into the request phase
  (lock guard, request parameters, initial-fetch adjustment, segment
  parameter) and the two response handlers (success, error);
- the conversion of a query string returned by `getAjaxData` into a
  parameter dictionary, including `decodeURI` in full and the `temp[1]`
  assignment of non-array keys. That assignment always yields undefined;
- `setLockInfiniteScroll`, `setSegment` and `reset`.

JavaScript values are the datatype `Js.JsValue`. Truthiness, `typeof`,
default parameters and strict-mode property assignment follow the
language. A value returned by `getAjaxData`, the response's non-emptiness
(`$(res).length`), the `NoMoreContent` header and `XHR.status` are
parameters. Requests sent and callbacks invoked are appended to an event
log.

Layout:

- `js.dfy`: the values.
- `text.dfy`: `String.prototype.split` on one character.
- `uri.dfy`: `decodeURI`, and an encoder as its partner.
- `querystring.dfy`: the conversion, as a method and as a function.
- `config.dfy`: defaults and `editConfig` as a function.
- `cycle.dfy`: one step of the fetch cycle as functions, with their properties.
- `session.dfy`: bursts of fetches and runs of answered fetches.
- `scroll.dfy`: the class `InfiniteScroll`. Its methods update `config` and
  `log` in place and are proved equal to the functions above.

Four behaviours of the code that a reader might not expect:

- After a transport error other than 404, the controller stays locked. The
  lock was set to true at line 150, and the error handler (lines 212-221)
  only ever sets it to true, so a later scroll does not retry
  (`Cycle.LockedAfterError`, `Session.StopsAfterFirstFalse`).
- A failed initial fetch leaves the segment one below its start, so at 0
  after `reset` (`Cycle.InitialFetchErrorLeavesRewound`).
- `reset` sets the segment to 1 (line 254), although its doc comment
  (line 241) says 0. The model follows line 254
  (`Cycle.ResetRestartsAtFirstSegment`).
- `index.js` has no lookahead cache of the next segment, no content-counter
  header and no `onNoResults` callback, so none is modelled.

## Model

| member | source | states |
|---|---|---|
| Js.TypeOf | index.js:97 | `typeof` is "object" exactly for null, arrays, plain objects and host objects |
| Js.WithDefault | index.js:230 | a default parameter takes the default only when the argument is undefined |
| Js.IndexedKeys | index.js:97-98 | the own keys of an array or string source for `Object.assign` are the decimal numerals of its positions, and no others |
| Js.IndexKeyValue | index.js:97-98 | the key of a position is its decimal numeral: reading the numeral back gives the position |
| Js.IndexKeyInjective | index.js:97-98 | two positions have the same key exactly when they are the same position, so there is one property per position |
| Js.IndexedValues | index.js:97-98 | the property under a position's key holds the element at that position |
| Text.Split | index.js:160-161 | `split` on one character gives at least one piece, none containing the separator |
| Text.JoinSplit | index.js:160-161 | joining the pieces with the separator gives back the string |
| Text.SplitJoin | index.js:160-161 | splitting a join of a non-empty list of separator-free pieces gives back the pieces (the empty list joins to `""`, which splits to `[""]`) |
| Uri.DecodeUri | index.js:162 | `decodeURI` fails only with URIError, and only on input containing `%` |
| Uri.DecodeWithoutEscapes | index.js:162 | a string without `%` decodes to itself |
| Uri.Utf8CodePoint | index.js:162 | a decoded multi-byte sequence is a Unicode scalar value of at least 0x80, so surrogates and values past 0x10FFFF are rejected |
| Uri.Utf8Canonical | index.js:162 | a sequence that decodes is exactly the UTF-8 encoding of its value, so overlong forms are rejected |
| Uri.Utf8Decodes | index.js:162 | the UTF-8 encoding of any scalar value of at least 0x80 decodes back to it |
| Uri.DecodeEncodedChar | index.js:162 | one encoded character, escaped as UTF-8 or kept as a reserved character, decodes back to itself |
| Uri.DecodeEncode | index.js:162 | `decodeURI` inverts the encoder on every string |
| Uri.ReservedEscapeKept | index.js:162 | an escape of a reserved character (`;/?:@&=+$,#`), with hex digits in either case, is left exactly as written |
| Uri.TrailingPercentThrows | index.js:162 | a `%` ending the string throws URIError, whatever precedes it |
| QueryString.Absorb | index.js:164-169 | one pass of the loop body keeps every array key bound to an array |
| QueryString.Collect | index.js:159-171 | every array key of the built dictionary holds an array |
| QueryString.DecodeAll | index.js:160-163 | each piece's key decodes, and the value is the text after the first `=` up to the next `=` or the end, or undefined when there is no `=`; it fails, with URIError, exactly when some key fails to decode |
| QueryString.Convert | index.js:158-172 | the forEach loop over the pieces computes the conversion function, or throws the first key's decoding error |
| QueryString.ValuesForEmpty | index.js:164-166 | no values are collected for a key exactly when the key never occurs |
| QueryString.CollectMeaning | index.js:164-169 | a key is present exactly when it occurs and is not `__proto__`; an array key holds its raw values in order, any other key holds undefined |
| QueryString.ParseThrows | index.js:158-172 | the conversion throws exactly when some piece's key fails to decode |
| QueryString.ParseMeaning | index.js:158-172 | the converted dictionary in terms of the query string: its keys are the decoded keys (but `__proto__`), with array values or undefined |
| Config.Defaults | index.js:34-57 | the default settings have the types the fetch cycle reads |
| Config.DefaultState | index.js:34-57 | the defaults: segment 1 under parameter "segment", unlocked, no initial fetch, autoFill on, autoScroll off, dataType "json", no null value |
| Config.OwnProps | index.js:97-98 | `Object.assign` copies a plain object's properties and nothing from null, undefined, numbers, booleans or functions |
| Config.Edit | index.js:95-101 | the `editConfig` loop leaves every key it is not given untouched |
| Config.EditKeyMeaning | index.js:97-100 | one pass throws exactly when the current value is null; otherwise it replaces the value, or merges into it when it is an object |
| Config.EditThrows | index.js:95-101 | `editConfig` throws, with TypeError, exactly when some given key currently holds null |
| Config.EditValues | index.js:95-101 | when it does not throw, every given key holds the caller's value, merged into the old one when that was an object |
| Config.EditStopsAtThrow | index.js:95-101 | after the first exception no further key is visited |
| Config.EditKeepsWellFormed | index.js:95-101 | settings of the documented types keep the fetch cycle's settings well typed, even when the loop throws |
| Config.ConstructionSucceeds | index.js:34-59 | the constructor's merge over the defaults never throws and leaves the settings well typed |
| Cycle.RequestData | index.js:155-172 | the parameters are a plain object, or a truthy number or boolean passed on as it is; only a string can fail, with URIError |
| Cycle.RequestDataCases | index.js:155-172 | the parameters are `{}` for a falsy value, the query-string conversion's dictionary for a truthy string (failing exactly when it fails), and the value itself for a truthy plain object, number or boolean |
| Cycle.Begin | index.js:149-185 | the request phase keeps the settings well typed |
| Cycle.Prepare | index.js:158-185 | after the lock, the rest of the request phase keeps the settings well typed |
| Cycle.Initial | index.js:175-185 | the initial-fetch adjustment keeps the settings well typed |
| Cycle.Send | index.js:185-191 | setting the segment parameter and sending keeps the settings well typed |
| Cycle.Succeed | index.js:194-211 | the success handler keeps the settings well typed |
| Cycle.Fail | index.js:212-221 | the error handler keeps the settings well typed |
| Cycle.SetLock | index.js:230-232 | `setLockInfiniteScroll` changes only the lock; it is locked after the call exactly when the argument is omitted or truthy |
| Cycle.SetSegment | index.js:237-239 | `setSegment` changes only the segment, to the argument or to 1 when it is omitted |
| Cycle.Reset | index.js:244-255 | `reset` changes only the flag, the lock and the segment: next fetch initial, unlocked, segment 1 |
| Cycle.LockGuard | index.js:149-150 | a fetch returns early and changes nothing exactly when locked; otherwise it locks first; only the lock, the flag and the segment ever change |
| Cycle.SegmentSent | index.js:174-185 | the request asks for the segment plus one. An initial fetch asks for the segment itself, lowers it by one, clears the flag and adds `initial = 1`. All the caller's other parameters are kept |
| Cycle.SentParamsKeys | index.js:174-185 | the request carries exactly the caller's parameters, the segment parameter and, on an initial fetch, `initial`; nothing else is added |
| Cycle.BeginRejects | index.js:155-185 | an unlocked fetch rejects exactly when a key fails to decode or the parameters are a truthy primitive; it is then locked and sends nothing |
| Cycle.NonEmptySuccess | index.js:198-206 | a non-empty page raises the segment by one, reports it to `updateParam` and then calls `onSuccess`; the lock takes the header's value and the result is true exactly when the header is absent or empty |
| Cycle.EmptySuccess | index.js:207-210 | an empty page locks and resolves false with no callback and the segment unchanged |
| Cycle.ErrorOutcome | index.js:212-221 | an error calls `onError` once and resolves false with the segment unchanged; on 404 only the lock changes, to true; any other status changes nothing |
| Cycle.LockedAfterError | index.js:149-221 | after a sent request fails, with any status, the controller is locked |
| Cycle.InitialFetchKeepsSegment | index.js:174-206 | a successful initial fetch requests, reports and ends on the segment it started from |
| Cycle.InitialFetchErrorLeavesRewound | index.js:174-221 | a failed initial fetch leaves the segment one lower, the flag cleared and the lock set |
| Cycle.ResetRestartsAtFirstSegment | index.js:149-255 | after `reset`, the next fetch asks for segment 1 with `initial = 1`, and a non-empty page without the header ends on segment 1, unlocked |
| Session.Burst | index.js:149-150 | a series of fetches with no response in between keeps the settings well typed |
| Session.Respond | index.js:194-221 | the handler a response runs keeps the settings well typed |
| Session.Round | index.js:149-221 | a fetch and its response keep the settings well typed |
| Session.Run | index.js:149-221 | a run of answered fetches keeps the settings well typed |
| Session.LockedBurstIsNoop | index.js:149 | any number of fetches while locked change nothing and send nothing |
| Session.OnlyFirstFetchCounts | index.js:149-150 | of fetches with no response in between only the first has an effect; at most one request is sent |
| Session.RoundLock | index.js:149-221 | a fetch from an unlocked state leaves it unlocked exactly when it resolves true, which is exactly a non-empty page without the header |
| Session.LockedRunIsNoop | index.js:149 | a locked controller stays as it is, with no events, for any run |
| Session.StopsAfterFirstFalse | index.js:149-221 | once a fetch settles with anything but true, every later fetch of the run is a no-op |
| Session.BeginSegments | index.js:174-185 | the request phase requests at most the next segment and reports none; a sent request leaves no initial fetch pending |
| Session.RespondSegments | index.js:194-221 | a response requests nothing and reports at most the segment after the current one, which it then holds |
| Session.RoundPaced | index.js:149-221 | one round requests at most the next segment and reports at most that one; a round resolving true requests and reports it and moves on to the next |
| Session.RoundCount | index.js:149-221 | outside an initial fetch one round raises the segment by the number of its reports |
| Session.SegmentsAreConsecutive | index.js:149-221 | over any run the requested segments are consecutive from the next one, each reported once, in order, lagging by at most one |
| Session.SegmentCountsReports | index.js:194-221 | outside an initial fetch a run raises the segment by exactly the number of `updateParam` reports |
| Scroll.InfiniteScroll.constructor | index.js:33-59 | the defaults, with the caller's settings merged by `editConfig`, and no events |
| Scroll.InfiniteScroll.EditConfig | index.js:95-101 | the loop over the given settings computes `Config.Edit`, returning the exception it stopped at |
| Scroll.InfiniteScroll.RequestParams | index.js:155-172 | the parameters `fetch` builds from the value of `getAjaxData()` are those `Cycle.RequestData` describes |
| Scroll.InfiniteScroll.BeginFetch | index.js:149-185 | the request phase in place computes `Cycle.Begin` and logs its request; it returns early exactly when locked |
| Scroll.InfiniteScroll.PrepareRequest | index.js:158-185 | in place, `Cycle.Prepare` |
| Scroll.InfiniteScroll.AdjustInitial | index.js:175-185 | in place, `Cycle.Initial` |
| Scroll.InfiniteScroll.SendRequest | index.js:185-191 | in place, `Cycle.Send`, logging the request |
| Scroll.InfiniteScroll.OnSuccess | index.js:194-211 | the success handler in place computes `Cycle.Succeed` and logs its callbacks |
| Scroll.InfiniteScroll.OnError | index.js:212-221 | the error handler in place computes `Cycle.Fail` and logs `onError`; the segment is unchanged and the result false |
| Scroll.InfiniteScroll.SetLockInfiniteScroll | index.js:230-232 | in place, `Cycle.SetLock`: locked exactly when the argument is omitted or truthy |
| Scroll.InfiniteScroll.SetSegment | index.js:237-239 | in place, `Cycle.SetSegment`: the segment becomes the argument, or 1 |
| Scroll.InfiniteScroll.Reset | index.js:244-255 | in place, `Cycle.Reset`: segment 1, unlocked, next fetch initial |

## Left out

- Loading indicator, DOM insertion, `$container.empty()` and the `removeContents` flag of `reset`: rendering only, no effect on the sequencing.
- `addScrollLsn`, `scrollDown` and the scroll geometry: each scroll event is modelled as a plain call of `fetch`.
- `autoFill` and the constructor's initial fetch (lines 70-85): they only call `fetch` again. A caller models them by calling `BeginFetch` after construction.
- `fetchData` (line 225): it only delegates to `fetch`.
- The binding loop of the constructor (lines 88-92) and `initLoadingIndicator`: no state of the core.
- `$.ajax`, `currAjax` and `abort()`: the network is the `Response` parameter. An aborted request's error callback is not modelled; a second request while one is pending needs an explicit unlock in between.
- Promise scheduling: the success and error handlers are separate methods, called by whoever plays the network.
- `window.location.search` and the call of `getAjaxData`: its result is a parameter.
- The callbacks' own effects: they are recorded as events and assumed not to throw or to change the settings.
- Cycle.ModelledAjaxData: an array, function or host object returned by `getAjaxData` is excluded, since the model's values cannot carry properties added to them.
- Aliasing: a plain object returned by `getAjaxData` is modified by `fetch` in the source. Here the request parameters are a fresh value.
- Config.Edit: array and host-object targets, and host-object sources merged into an object, are excluded by its precondition. The constructor's call never meets array or host-object targets. A host object given as a setting whose default is an object (such as `loadingIndicator`) is a host-object source, and the constructor's precondition excludes it. Their merge needs the object identity the value model does not keep.
- Scroll.InfiniteScroll.EditConfig: requires the documented types for the segment, the segment parameter and the callbacks. Other types would send the fetch cycle into number and string coercions that are not modelled.
- Scroll.InfiniteScroll.SetSegment: requires a number or an omitted argument, for the same reason.
- Cycle.SetSegment: requires a number or an omitted argument, for the same reason.
- Cycle.Event: `AjaxRequest` holds the request parameters as a map, so their order is lost. The order only decides how `$.ajax` serialises them, and the transport is not modelled.
- Inherited properties: `for … in` and property reads see only own properties. The keys inherited from `Object.prototype` are not modelled, except the `__proto__` setter in the query-string conversion. A `segmentParam` of `"__proto__"` (line 185) and an own `"__proto__"` key given to `editConfig` (lines 97-98) become plain keys in the model.
- Numbers are unbounded integers, not IEEE doubles. Strings are sequences of Unicode scalar values, not UTF-16 code units, so lone surrogates are not represented.
