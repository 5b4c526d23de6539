# Scribe AI website script, modelled in Dafny

This project models the page script of the Scribe AI marketing site (`js/main.js`).
The script reacts to browser events. It keeps a referral code in browser storage
for thirty days, opens and closes the mobile menu, gives feedback when a form is
submitted, marks the navigation bar once the page is scrolled, fades cards in
once, and labels store-badge clicks. The browser is abstracted away:

- storage is a `map<string, string>`;
- the address's query parameters are a map from name to first value;
- the current time in milliseconds is a parameter;
- class lists are boolean fields or sets of element identities;
- the three-second restore timer is an explicit event.

Modules, one per behaviour:

- `RecordText` is the stored text of a referral record. `Encode` writes the text
  that `JSON.stringify({code, expiry})` produces for a natural-number expiry
  below 10^21,
  `{"code":"…","expiry":N}`. It escapes quotes, backslashes and control
  characters as `JSON.stringify` does. `Decode` may fail. It reads string
  escapes as `JSON.parse` does, and refuses a raw control character and a
  leading zero in the expiry. It also accepts a record with no `expiry`. The
  round trip `Decode(Encode(c, e)) == Some(Record(c, Some(e)))` is proved.
- `ReferralStore` holds the `ref`/`referral` parameter rule, the thirty-day
  write, and the read that returns a live code or purges the key. These are
  functions over the storage map, with lemmas for the time-to-live behaviour.
- `MobileMenu` holds the three menu flags, the three click handlers, and the
  composition of a click as it bubbles from its target to the document.
- `FormFeedback` holds the `referral_code` input step, the busy button and the
  queue of pending restores. It also has the class `Form`, whose methods are
  proved against those functions.
- `PageRules` holds the `scrolled` rule, the anchor-click rule, the set of
  intersecting elements in an observer batch, and the store label.
- `Coordinator` has the class `Page`, which holds the state the script keeps
  across events. Each handler is a method proved against the functions above.
  `Page.Valid()` says no element is both visible and still observed. The three
  menu flags keep agreeing when the markup starts them agreeing
  (`ClicksKeepLockstep`).

The script has a race: a second submit before the first restore reads
`Sending...` as its original label. Once both restores fire, the
button is enabled again but still says `Sending...` (`DoubleSubmitLeavesBusyLabel`).

Details of the code the model keeps:

- The store label tests whether the whole link URL (`this.href`) contains
  `apple.com`, not only its host.
- An empty `ref` falls through to `referral`. A present but empty `referral`
  comes back as an empty, falsy code.
- A stored text that is the empty string is falsy. It reads as absent and is
  not removed.
- The store-link annotation at load (js/main.js:85) reads the stored record.
  That read purges a dead record, so loading a page purges it
  (`LoadPurgesDeadRecord`).

## Model

| member | source | states |
|---|---|---|
| `RecordText.NatText` | js/main.js:54-58 | the written expiry is a non-empty run of decimal digits |
| `RecordText.DecodeEncode` | js/main.js:55-58 | any record the store writes decodes back to exactly its code and expiry |
| `RecordText.Encode` | js/main.js:55-58 | the written text opens with `{"code":"` and closes with `}` |
| `RecordText.Decode` | js/main.js:67-68 | only a text that opens with `{"code":"` and closes with `}` decodes |
| `RecordText.DecodeRejectsNull` | js/main.js:66-75 | the text `null`, whose `expiry` cannot be read, is not a record |
| `RecordText.DecodeRejectsLeadingZero` | js/main.js:66-75 | an expiry with a leading zero, which `JSON.parse` refuses, makes the text no record |
| `RecordText.DecodeRejectsRawControl` | js/main.js:66-75 | a raw line feed inside the code, which `JSON.parse` refuses, makes the text no record |
| `RecordText.DecodeUnicodeEscape` | js/main.js:67 | a `\u0041` escape in the code reads as `A` |
| `ReferralStore.QueryReferral` | js/main.js:45-48 | `ref` wins when present and non-empty, otherwise `referral`; the result is truthy iff one of the two is present and non-empty |
| `ReferralStore.AfterStore` | js/main.js:50-61 | the store touches no key but `scribeai_referral`, writes it when the code is truthy, and writes nothing otherwise |
| `ReferralStore.ReadStored` | js/main.js:63-78 | a read changes storage at most by removing `scribeai_referral`, never when it returns a code, and returns null when the key is absent |
| `ReferralStore.WrittenRecord` | js/main.js:52-58 | with a truthy code the store writes a non-empty text under `scribeai_referral` that decodes to that code with expiry t + 2592000000 |
| `ReferralStore.StoreThenRead` | js/main.js:50-69 | a code written at t reads back unchanged, leaving storage as is, at every time before t + 2592000000 |
| `ReferralStore.StoreThenReadExpired` | js/main.js:63-72 | from t + 2592000000 on, the same record reads as null and only its key is removed |
| `ReferralStore.ReadEncoded` | js/main.js:54-72 | a record written with expiry e returns its code, touching nothing, at every time before e, and from e on reads as null with only its key removed |
| `ReferralStore.ReadDecoded` | js/main.js:63-72 | a stored text that decodes to a record returns the record's code when it is live and otherwise reads as null with only its key removed |
| `ReferralStore.DeadRecordPurged` | js/main.js:68-72 | a record not live at now reads as null and storage loses exactly its key |
| `ReferralStore.MalformedPurgedOnce` | js/main.js:63-77 | an undecodable text reads as null and is removed; a second read at any time returns null and changes nothing |
| `ReferralStore.ReadAbsentLater` | js/main.js:63-77 | once a read returns null, a second read at any time returns null and leaves storage unchanged |
| `ReferralStore.ReadIdempotent` | js/main.js:63-77 | two reads at the same time give the same result and storage as one |
| `ReferralStore.StoreOverwrites` | js/main.js:54-58 | a write replaces any earlier record outright, with no merge or extension |
| `ReferralStore.AfterLoad` | js/main.js:80-85 | loading touches no key but `scribeai_referral`, and keeps it when the address carries a truthy code |
| `ReferralStore.LoadKeepsCode` | js/main.js:80-85 | with a truthy code in the address, the read at load returns that code and leaves the freshly written storage as it is |
| `ReferralStore.LoadStoresReferral` | js/main.js:80-81 | loading `?ref=C` leaves a record decoding to C with expiry now + thirty days |
| `ReferralStore.LoadPurgesDeadRecord` | js/main.js:84-85 | loading without a referral parameter removes a record that is dead or unreadable at load time |
| `ReferralStore.ExpiredScenario` | js/main.js:68-72 | the record `{code:"X", expiry: now-1000}` reads as null and its key is gone |
| `MobileMenu.Toggled` | js/main.js:17-19 | the toggle changes the flags, keeps them agreeing exactly when they agreed, and closes the menu only from all-open |
| `MobileMenu.AfterDocumentClick` | js/main.js:34-38 | the document handler either closes the menu or leaves the flags as they were, and keeps agreeing flags agreeing |
| `MobileMenu.AfterClick` | js/main.js:16-39 | a click on the button toggles the flags, a click on a menu link or outside closes them, and a click elsewhere in the menu changes nothing |
| `MobileMenu.ToggleNegatesEach` | js/main.js:16-20 | the button click negates each flag, keeps agreeing flags agreeing, and undoes itself |
| `MobileMenu.DocumentClickClosesOutside` | js/main.js:33-39 | the document handler closes an open menu exactly when the click is outside both the menu and the button |
| `MobileMenu.ClicksKeepLockstep` | js/main.js:16-39 | every run of clicks from agreeing flags leaves the three flags agreeing |
| `MobileMenu.LastCloseWins` | js/main.js:22-39 | any run of clicks ending with a menu-link or outside click leaves the menu closed |
| `MobileMenu.OpenToggleTwiceOutside` | js/main.js:16-39 | open, toggle twice, click outside: closed |
| `FormFeedback.FirstNamed` | js/main.js:111 | the input found is the first one named `referral_code`; none is found only when no input has that name |
| `FormFeedback.WithReferral` | js/main.js:110-119 | after the referral step the form has a `referral_code` input, and the first one holds the code |
| `FormFeedback.ReferralInputSet` | js/main.js:110-119 | the first `referral_code` input holds the code; a hidden one is appended only if there was none, so the length grows by exactly that; the found input changes only its value, and every other input, later `referral_code` inputs included, is unchanged |
| `FormFeedback.SubmitView` | js/main.js:105-127 | a submit leaves the button disabled with label `Sending...`, and adds one restore behind those already pending, carrying the label the button had at this submit |
| `FormFeedback.RestoreView` | js/main.js:127-130 | a restore enables the button with the label at the head of the pending queue, takes it off the queue, and leaves the inputs alone |
| `FormFeedback.SingleReferralInput` | js/main.js:110-119 | a form with at most one `referral_code` input ends a submit with exactly one, holding the code |
| `FormFeedback.SubmitWithoutCode` | js/main.js:109-123 | without a truthy code the inputs are untouched, and the button still turns disabled with label `Sending...` |
| `FormFeedback.Restores` | js/main.js:127-130 | after the n oldest restores fire, the inputs are unchanged, those n labels are off the queue, and (for n > 0) the button is enabled with the n-th label |
| `FormFeedback.SubmitThenRestore` | js/main.js:105-130 | whatever restores were already pending, once they have fired, the submit's own restore brings back the label read at that submit, re-enables the button and leaves nothing pending |
| `FormFeedback.DoubleSubmitLeavesBusyLabel` | js/main.js:105-130 | two submits before the first restore leave the button enabled but labelled `Sending...` once both restores fire |
| `FormFeedback.StoredCodeReachesForm` | js/main.js:105-123 | a code stored earlier and still live ends as the value of the single `referral_code` input, with the button busy and storage unchanged |
| `FormFeedback.Form.Submit` | js/main.js:104-131 | the submit handler changes the form exactly as the submit step says, and keeps the button disabled only while a restore is pending |
| `FormFeedback.Form.FireRestore` | js/main.js:127-130 | the oldest pending restore sets the label it captured and enables the button |
| `PageRules.AfterScroll` | js/main.js:170-180 | one scroll event sets `lastScroll` to the offset; with a nav bar `scrolled` holds iff the offset is above 50, and without one it is unchanged |
| `PageRules.LastScrollDecides` | js/main.js:167-181 | after any run of scroll events, `lastScroll` is the last offset and `scrolled` holds iff that offset is above 50 (unchanged without a nav bar) |
| `PageRules.ScrollScenario` | js/main.js:169-181 | scrolling 10 then 80 marks the bar; going back to 20 clears it |
| `PageRules.AnchorClick` | js/main.js:148-162 | the default is suppressed and the page scrolls exactly when the href is not `#` and names an existing element |
| `PageRules.AnchorScenario` | js/main.js:150-155 | `#` and `#missing-id` with no such element keep the default |
| `PageRules.IntersectingTargets` | js/main.js:192-198 | an element is in the set iff some entry of the batch reports it intersecting |
| `PageRules.Contains` | js/main.js:229 | the empty text is contained in every text, and a contained text is no longer than the one containing it |
| `PageRules.ContainsIffOccurs` | js/main.js:229 | the front-to-back substring scan holds iff the text occurs at some index |
| `PageRules.StoreLabel` | js/main.js:226-232 | the label is `App Store` iff the URL contains `apple.com`, and `Google Play` otherwise |
| `Coordinator.Page.Load` | js/main.js:11-98 | load keeps the markup's menu and `scrolled` classes, sets `lastScroll` to 0, observes the cards where supported, stores the address's code and purges a dead record |
| `Coordinator.Page.StoreReferralCode` | js/main.js:50-61 | the new storage is the thirty-day write of the address's code |
| `Coordinator.Page.GetStoredReferralCode` | js/main.js:63-78 | the returned code and new storage are those of the read rule |
| `Coordinator.Page.OnMenuButtonClick` | js/main.js:16-20 | the flags become their toggle: each is negated, and they agree afterwards exactly when they agreed before |
| `Coordinator.Page.OnMenuLinkClick` | js/main.js:23-30 | all three flags are cleared |
| `Coordinator.Page.OnDocumentClick` | js/main.js:33-39 | all three flags are cleared iff the click is outside the menu and the button; otherwise nothing changes |
| `Coordinator.Page.OnScroll` | js/main.js:169-181 | the nav state becomes that of one scroll event at the offset |
| `Coordinator.Page.OnIntersections` | js/main.js:192-199 | every intersecting element of the batch becomes visible and leaves the observed set; nothing else changes |
| `Coordinator.Page.OnSubmit` | js/main.js:103-131 | the submit reads (and may purge) the stored code and applies the submit step; a form without a submit button is left alone |

## Left out

- DOM querying and `addEventListener` wiring are not modelled. That includes the
  existence checks at js/main.js:15, 136 and 141: every handler is taken as wired.
- The `scrollIntoView` smooth animation is not modelled. `AnchorClick` returns
  only the element to scroll to.
- `document.querySelector(href)` is modelled as looking up the identifier after
  `#`. Hrefs that are other CSS selectors, or invalid ones that throw, are not
  modelled.
- The IntersectionObserver threshold and root margin are viewport geometry and
  are not modelled. Each batch of entries is an input. Adding the `fade-in`
  class at js/main.js:204 is modelled only as the initial observed set.
- Real `setTimeout` timing is replaced by the `FireRestore` event. All restores
  have the same 3000 ms delay, so they fire in the order they were scheduled.
- `URLSearchParams` is a map holding the first value of each parameter.
- `RecordText.Decode` reads only the shape the store writes, plus a record with
  no `expiry`. It is exactly the key order `code` then `expiry`, with no
  whitespace or other keys, a string `code` and a natural-number `expiry` with
  no fraction or exponent. Within that shape, string escapes and leading zeros
  are handled as `JSON.parse` handles them. A `\uXXXX` escape naming half of a
  surrogate pair is refused, because characters here are Unicode scalar values.
- `ReferralStore.ReadStored` treats every other JSON text that `JSON.parse`
  accepts as undecodable. Examples are reordered keys, whitespace, an extra
  key, a numeric or missing `code`, and an expiry such as `1.8e12` or a
  numeric string. For such a text holding a record that is still live, the
  script returns its code (or `undefined` for a missing code) and keeps the
  key. The model returns null and removes the key. For a dead record, or one
  with a negative or non-numeric expiry, both return null and remove the key.
- `Coordinator.Page.Load` assumes the cards start without the `visible` class.
  The menu and `scrolled` classes are taken from the markup as parameters.
  The three menu flags agree only if the markup makes them agree
  (`ClicksKeepLockstep` proves they then stay agreeing). From disagreeing
  markup, each toggle keeps them disagreeing.
- `RecordText.Encode` writes every expiry in plain decimal digits. From 10^21 on,
  `JSON.stringify` writes exponent form (`1e+21`), which the model does not.
- Storage is a total map, and its calls never throw. In a browser where
  `localStorage` is disabled or full, `setItem` (js/main.js:55) and `getItem`
  (js/main.js:64) throw outside any `try`. A throw at js/main.js:81 or
  js/main.js:98 stops the rest of the script, so the forms, anchors, scroll
  handler and fade-in observer are never wired. A throw at js/main.js:109 stops
  the submit handler before the busy label. None of this is modelled.
- `FormFeedback.Form.constructor` assumes the submit button starts enabled, with
  no restore pending. `Form.Valid()` rests on that assumption about the markup.
- `Date.now()` is a natural-number parameter. JavaScript's floating-point
  arithmetic for `now + 30 days` is taken as exact.
- `Coordinator.Page.Load` uses one time for both the store and the read at load.
- `window.pageYOffset` is an integer here. Fractional offsets are not modelled.
- The `console.log` calls are not modelled. `appendReferralToLinks` is modelled
  only for its storage read; its logging is left out.
- `trackEvent` is a logging placeholder and is not modelled. Only the label it
  would receive (`StoreLabel`) is.
- The `successMessage` argument of `handleFormSubmit` is never used by the
  script and is not modelled.
- The native form submission and the external form service are not modelled.
