# Wait conditions of the openEQUELLA browser tests, in Dafny

This project models `ExpectedConditions2`, the wait-condition library of the
openEQUELLA web tests. Each factory of that class builds a condition object
with one `apply` step. A polling driver calls `apply` again and again with the
remote browser. One evaluation does one of three things:

- it returns a result, meaning "satisfied";
- it returns null or `false`, meaning "not yet";
- it raises one of the driver's exceptions, which the condition either catches or lets escape.

The browser is abstract. `Browser.Session` is a snapshot of what one poll can
observe:

- which nodes are still attached, with their displayed flag, text and attributes;
- which node each refreshable handle resolves to now;
- what each locator matches;
- the window handles, the frames and the open alert;
- optionally, a driver error that every remote call of that poll raises.

An element handle is either plain, wrapped (`WrapsElement`) or refreshable
(`RefreshableElement`, looked up again on every use). An evaluation is
`Eval<T> = Ready(v) | NotYet | Raised(fault)`. For a `Boolean` condition,
`Ready(b)` is the Boolean returned and `NotYet` is a returned null.

The model has five modules of conditions:

- **Stateless conditions** (`Conditions`) are functions of their factory's
  arguments and the session. They are exact about which exceptions each
  `apply` catches and which it lets escape.
- **Two-phase update conditions** (`Update`) share one class, `UpdateCondition`,
  with the one-way `checkingStale` flag. Its `Apply` is specified by the step
  function `UpdateStep`. Lemmas over a run of polls (`UpdateRun`) prove three
  things: the condition never succeeds before the watched element has been
  seen stale; the flag only goes from true to false; and after staleness the
  answer is the target exactly when the target is displayed.
- **Text and attribute conditions** (`Recording`) are classes with a
  `lastValue` field. Each `Apply` is specified by a step function that returns
  the new `lastValue` and the answer. A read that does not raise always
  overwrites `lastValue`, also on the evaluation that succeeds. `Replay`
  proves that after a run `lastValue` is the last value read;
  `ElementTextToBeLastIsReplay` ties it to a run of `elementTextToBe`.
- **New-window condition** (`Windows`) is a class holding the baseline handle
  set. Its `Apply` runs the source's scan loop and is proved to return the
  first listed handle that is not in the baseline.
- **Dispatchers** (`Ajax`) are functions returning a `Plan`: which condition
  is built, and with what arguments. `PlanRun` gives a plan its meaning, the
  answers the planned condition gives to a run of polls. Lemmas about it show
  what each dispatcher waits for.

The code behaves differently from what some condition names suggest; the model follows the code:

- `visibilityOfElementLocated` and `elementTextToBe` catch nothing. A locator
  that finds nothing raises `NoSuchElementException`, and a stale text read
  raises too. Neither answers null. Only `textToEqualInElement` and
  `textToBePresentInElement` turn a stale read into null.
- `newWindowOpenedAndSwitchedTo` does not demand that exactly one window has
  opened. It takes the first listed handle that is new, and answers null if
  windows only closed.
- The attribute conditions treat a missing attribute as null, not as an empty
  string. Null never equals the value `elementAttributeToBe` is given.
  `elementAttributeToContain` never matches a null or empty value, even for the
  empty target. For the empty target it matches exactly the present, non-empty
  values.

## Model

| member | source | states |
|---|---|---|
| `Conditions.ElementIfVisible` | Tests/src/com/tle/webtests/pageobject/ExpectedConditions2.java:90-93 | the element exactly when it is displayed, null when it is not, and any fault of the read escapes |
| `Conditions.VisibilityOfElementLocated` | Tests/src/com/tle/webtests/pageobject/ExpectedConditions2.java:72-88 | the first match once it is displayed, null exactly while the match is attached but hidden; a fault of the lookup or of reading the match escapes, so a locator with no match raises NoSuchElement instead of answering null |
| `Conditions.PresenceOfElement` | Tests/src/com/tle/webtests/pageobject/ExpectedConditions2.java:95-123 | the element exactly when it answers, null exactly when it is stale or not found, and it raises only on another driver error |
| `Conditions.CaptureIfRefreshable` | Tests/src/com/tle/webtests/pageobject/ExpectedConditions2.java:217-225 | a refreshable handle is resolved once at construction with findNonWrapped, and any other handle is kept unchanged |
| `Conditions.StalenessOrNonPresenceOf` | Tests/src/com/tle/webtests/pageobject/ExpectedConditions2.java:226-244 | false exactly when the captured element answers, true exactly when it is stale or not found, never null |
| `Conditions.PresenceComplementsStaleness` | Tests/src/com/tle/webtests/pageobject/ExpectedConditions2.java:102-243 | on the same watched handle, presence is satisfied exactly when staleness-or-absence answers false, presence is null exactly when it answers true, and both raise the same fault together |
| `Conditions.CapturedStalenessDivergesFromPresence` | Tests/src/com/tle/webtests/pageobject/ExpectedConditions2.java:215-225 | given one refreshable handle the two factories watch different things: after the handle is rebound to a new node and the old node removed, presenceOfElement answers the handle and stalenessOrNonPresenceOf answers true in the same poll |
| `Conditions.InvisibilityOf` | Tests/src/com/tle/webtests/pageobject/ExpectedConditions2.java:255-272 | the element exactly when it answers and is not displayed, null exactly while it is displayed; nothing is caught, so a stale element raises |
| `Conditions.VisibilityExcludesInvisibility` | Tests/src/com/tle/webtests/pageobject/ExpectedConditions2.java:255-272 | elementIfVisible succeeds exactly when invisibilityOf is null, is null exactly when invisibilityOf succeeds, and both raise in the same polls |
| `Conditions.InvisibilityOfElementLocated` | Tests/src/com/tle/webtests/pageobject/ExpectedConditions2.java:280-307 | false exactly when a displayed element is found; true when nothing matches, never null, and it raises exactly on a driver error |
| `Conditions.NumberOfElementLocated` | Tests/src/com/tle/webtests/pageobject/ExpectedConditions2.java:408-430 | the match list exactly when its size equals count (so never for a negative count), null otherwise, and lookup faults escape |
| `Conditions.NumberOfElementLocatedFirstMatch` | Tests/src/com/tle/webtests/pageobject/ExpectedConditions2.java:416-421 | over a run, the first success comes in the first poll whose matches have the required size, and it returns exactly those matches |
| `Conditions.ChildCount` | Tests/src/com/tle/webtests/pageobject/ExpectedConditions2.java:593-615 | true exactly when the number of children equals expectedCount, never false, null on NoSuchElement, and any other lookup fault, staleness included, escapes as that fault |
| `Conditions.FrameToBeAvailableAndSwitchToIt` | Tests/src/com/tle/webtests/pageobject/ExpectedConditions2.java:309-337 | when the locator finds an attached node, the marker exactly when that node is a frame and null when it is not; a locator with no match gives null; a stale match and any other driver error escape as that fault; NoSuchElement and NoSuchFrame never escape |
| `Conditions.AcceptAlert` | Tests/src/com/tle/webtests/pageobject/ExpectedConditions2.java:540-565 | the open alert (which is accepted) exactly when one is present, null exactly when none is |
| `Update.TargetEval` | Tests/src/com/tle/webtests/pageobject/ExpectedConditions2.java:61-62 | the element the second phase examines (the given handle, or the first element the locator finds) exactly when it is displayed, null exactly while it is present but hidden, and a fault of finding or reading it escapes |
| `Update.PhaseOne` | Tests/src/com/tle/webtests/pageobject/ExpectedConditions2.java:49-55 | the first phase never succeeds: null exactly while the watched element answers, and otherwise the very fault reading it raised escapes |
| `Update.UpdateStep` | Tests/src/com/tle/webtests/pageobject/ExpectedConditions2.java:46-62 | the flag stays set exactly when it was set and the watched element is not stale; it never comes back; a success implies the flag is clear; with the flag clear the answer is the target's |
| `Update.PhaseOneIgnoresTarget` | Tests/src/com/tle/webtests/pageobject/ExpectedConditions2.java:49-55 | in the first phase an apply depends only on how the watched element answers, not on the target or the rest of the session |
| `Update.CheckingAfterRun` | Tests/src/com/tle/webtests/pageobject/ExpectedConditions2.java:44-59 | after any run of polls checkingStale is still true exactly when it started true and no poll saw the watched element stale |
| `Update.UpdateRunAt` | Tests/src/com/tle/webtests/pageobject/ExpectedConditions2.java:44-62 | closed form of a run: poll i answers with the target once staleness has been seen in poll i or before, and with the first-phase answer otherwise |
| `Update.NoUpdateBeforeStaleness` | Tests/src/com/tle/webtests/pageobject/ExpectedConditions2.java:380-397 | a run started in the first phase succeeds in poll i only if the watched element was seen stale in some poll up to i |
| `Update.UpdateAfterStaleness` | Tests/src/com/tle/webtests/pageobject/ExpectedConditions2.java:445-462 | from the first stale observation on, every poll answers as the target does: the target exactly when it is displayed, null while it is present but hidden, and a lookup fault of the target escapes |
| `Update.UpdateCondition.constructor` | Tests/src/com/tle/webtests/pageobject/ExpectedConditions2.java:380 | a new condition starts in the first phase, with checkingStale true |
| `Update.UpdateCondition.Apply` | Tests/src/com/tle/webtests/pageobject/ExpectedConditions2.java:383-398 | the new flag and the answer are those of UpdateStep; the flag is never set back; a success leaves it clear |
| `Update.LocatedCapture` | Tests/src/com/tle/webtests/pageobject/ExpectedConditions2.java:29-41 | updateOfElementLocated watches a plain node: it resolves a refreshable handle and unwraps a wrapper |
| `Update.RefreshableCapture` | Tests/src/com/tle/webtests/pageobject/ExpectedConditions2.java:369-377 | the guard fails with NotRefreshable exactly for handles that are not refreshable; otherwise it watches the node findNonWrapped resolves to |
| `Update.UpdateOfElementLocated` | Tests/src/com/tle/webtests/pageobject/ExpectedConditions2.java:26-70 | builds a fresh condition in its first phase that watches the captured node and targets the located element; a capture fault fails the build |
| `Update.UpdateOfElement` | Tests/src/com/tle/webtests/pageobject/ExpectedConditions2.java:367-406 | fails fast with NotRefreshable on a handle that is not refreshable; otherwise builds a fresh first-phase condition whose target is the handle itself |
| `Update.UpdateFromElementTo` | Tests/src/com/tle/webtests/pageobject/ExpectedConditions2.java:432-471 | fails fast when `from` is not refreshable; otherwise builds a fresh first-phase condition that watches `from` and targets `to` |
| `Recording.Recorded` | Tests/src/com/tle/webtests/pageobject/ExpectedConditions2.java:134 | lastValue becomes the value just read, and stays as it was when the read raises |
| `Recording.ReplayWithoutReads` | Tests/src/com/tle/webtests/pageobject/ExpectedConditions2.java:129-134 | a run in which every read raised leaves lastValue unchanged |
| `Recording.ReplayKeepsLastRead` | Tests/src/com/tle/webtests/pageobject/ExpectedConditions2.java:129-134 | after any run, lastValue is the value of the last read that did not raise |
| `Recording.ReturnIfEquals` | Tests/src/com/tle/webtests/pageobject/ExpectedConditions2.java:135-139 | the element exactly when the value read equals the expected string (a null never does), null otherwise, and a read fault escapes |
| `Recording.ElementTextToBe.constructor` | Tests/src/com/tle/webtests/pageobject/ExpectedConditions2.java:125-129 | keeps the element and the target text; lastValue starts null |
| `Recording.ElementTextToBeStep` | Tests/src/com/tle/webtests/pageobject/ExpectedConditions2.java:132-140 | records the text read; succeeds exactly when that text equals the target, and then lastValue is the target; null exactly when a different text is read; a read fault escapes |
| `Recording.ElementTextToBe.Apply` | Tests/src/com/tle/webtests/pageobject/ExpectedConditions2.java:132-140 | new lastValue and answer are those of ElementTextToBeStep |
| `Recording.ElementTextToBeLastIsReplay` | Tests/src/com/tle/webtests/pageobject/ExpectedConditions2.java:129-140 | over any run of polls, the lastValue an elementTextToBe condition ends with is Replay of its text reads, so with ReplayKeepsLastRead it is the text of the last poll whose read did not raise |
| `Recording.ElementAttributeToBe.constructor` | Tests/src/com/tle/webtests/pageobject/ExpectedConditions2.java:150-155 | keeps the element, the attribute name and the value; lastValue starts null |
| `Recording.ElementAttributeToBeStep` | Tests/src/com/tle/webtests/pageobject/ExpectedConditions2.java:158-166 | records the attribute read; succeeds exactly when it equals the value; null exactly when a different value or no attribute is read, and a missing attribute records null; a read fault escapes |
| `Recording.ElementAttributeToBe.Apply` | Tests/src/com/tle/webtests/pageobject/ExpectedConditions2.java:158-166 | new lastValue and answer are those of ElementAttributeToBeStep |
| `Recording.ElementAttributeToContainStep` | Tests/src/com/tle/webtests/pageobject/ExpectedConditions2.java:195-204 | reads the captured element and records the value; succeeds exactly when the value is non-null, non-empty and contains the target, and then returns the handle as given; null exactly when the value read does not qualify; a read fault escapes |
| `Recording.AttributeToContainNeverMatchesEmpty` | Tests/src/com/tle/webtests/pageobject/ExpectedConditions2.java:199-203 | a null or empty attribute never matches, whatever the target, the empty target included |
| `Recording.AttributeToContainEmptyTarget` | Tests/src/com/tle/webtests/pageobject/ExpectedConditions2.java:199 | with the empty target the condition succeeds exactly when the attribute is present and non-empty |
| `Recording.ElementAttributeToContain.constructor` | Tests/src/com/tle/webtests/pageobject/ExpectedConditions2.java:177-192 | keeps the captured element, the handle as given, the attribute name and the value; lastValue starts null |
| `Recording.ElementAttributeToContain.Apply` | Tests/src/com/tle/webtests/pageobject/ExpectedConditions2.java:195-204 | new lastValue and answer are those of ElementAttributeToContainStep |
| `Recording.NewElementAttributeToContain` | Tests/src/com/tle/webtests/pageobject/ExpectedConditions2.java:177-192 | builds a fresh condition that reads the element captured at construction and keeps the handle as given; a capture fault fails the build |
| `Recording.SearchRoot` | Tests/src/com/tle/webtests/pageobject/ExpectedConditions2.java:489-493 | a null search context is replaced by the driver, and a given one is kept |
| `Recording.TextOfLocated` | Tests/src/com/tle/webtests/pageobject/ExpectedConditions2.java:494 | the text of the first element found, or the lookup fault |
| `Recording.TextToEqualInElementStep` | Tests/src/com/tle/webtests/pageobject/ExpectedConditions2.java:485-501 | records the text read; answers true exactly on equality, null exactly on a stale read, and any other fault (NoSuchElement included) escapes as that fault |
| `Recording.TextToEqualInElementNullContext` | Tests/src/com/tle/webtests/pageobject/ExpectedConditions2.java:489-493 | with a null context the condition behaves exactly as with the driver given explicitly |
| `Recording.TextToEqualInElement.constructor` | Tests/src/com/tle/webtests/pageobject/ExpectedConditions2.java:477-482 | keeps the search context (possibly null), the locator and the text; lastValue starts null |
| `Recording.TextToEqualInElement.Apply` | Tests/src/com/tle/webtests/pageobject/ExpectedConditions2.java:485-501 | new lastValue and answer are those of TextToEqualInElementStep |
| `Recording.TextToBePresentInElement.constructor` | Tests/src/com/tle/webtests/pageobject/ExpectedConditions2.java:512-516 | keeps the element and the text; lastValue starts null |
| `Recording.TextToBePresentInElementStep` | Tests/src/com/tle/webtests/pageobject/ExpectedConditions2.java:519-530 | records the text read; answers true exactly when it contains the target, null exactly when the element is stale, and any other fault escapes as that fault |
| `Recording.TextToBePresentInElement.Apply` | Tests/src/com/tle/webtests/pageobject/ExpectedConditions2.java:519-530 | new lastValue and answer are those of TextToBePresentInElementStep |
| `Windows.FirstNew` | Tests/src/com/tle/webtests/pageobject/ExpectedConditions2.java:351-357 | the position of the first listed handle not in the baseline; every earlier handle is in it; none means every handle is in it |
| `Windows.NewWindowOpenedAndSwitchedTo` | Tests/src/com/tle/webtests/pageobject/ExpectedConditions2.java:346-361 | null when the handle set equals the baseline; a Ready handle is listed, is new, and every handle listed before it is in the baseline |
| `Windows.NewWindowIsFirstNewHandle` | Tests/src/com/tle/webtests/pageobject/ExpectedConditions2.java:348-360 | the set comparison never changes the answer: null exactly when no listed handle is new (unchanged, or windows only closed), otherwise the first new one |
| `Windows.NewWindowExamples` | Tests/src/com/tle/webtests/pageobject/ExpectedConditions2.java:339-365 | baseline {A}: [A,B] gives B, [A,B,C] gives B, [C,A,B] gives C, [] gives null; baseline {A,B} with [B] gives null |
| `Windows.NewWindowCondition.constructor` | Tests/src/com/tle/webtests/pageobject/ExpectedConditions2.java:341 | the baseline is the set of handles listed when the condition is built |
| `Windows.NewWindowCondition.Apply` | Tests/src/com/tle/webtests/pageobject/ExpectedConditions2.java:346-361 | the scan loop with its early return computes NewWindowOpenedAndSwitchedTo for the baseline |
| `Windows.NewWindowOpened` | Tests/src/com/tle/webtests/pageobject/ExpectedConditions2.java:339-341 | the window listing taken at construction raises a driver error of that session; otherwise a fresh condition whose baseline is the set of handles listed then |
| `Ajax.AjaxUpdate` | Tests/src/com/tle/webtests/pageobject/ExpectedConditions2.java:617-625 | with a first child it plans that child's two-phase update, failing fast if the child is not refreshable; with none it plans visibility of a located first child |
| `Ajax.AjaxUpdateExpect` | Tests/src/com/tle/webtests/pageobject/ExpectedConditions2.java:627-635 | with a first child it plans an update from that child to the expected element; with none it plans visibility of the expected element |
| `Ajax.AjaxUpdateEmpty` | Tests/src/com/tle/webtests/pageobject/ExpectedConditions2.java:637-640 | plans invisibility of the region's located first child |
| `Ajax.AjaxUpdateWatchesFirstChild` | Tests/src/com/tle/webtests/pageobject/ExpectedConditions2.java:617-622 | the update plan watches the node the first child was bound to at build time: it never succeeds before that node is seen stale, and afterwards it answers with the child handle, looked up again, exactly when that is displayed |
| `Ajax.AjaxUpdateWithoutChild` | Tests/src/com/tle/webtests/pageobject/ExpectedConditions2.java:617-625 | without a first child the plan answers with the region's first child exactly when it is displayed, and raises NoSuchElement while the region has no child |
| `Ajax.AjaxUpdateExpectWaitsForExpected` | Tests/src/com/tle/webtests/pageobject/ExpectedConditions2.java:627-632 | the update plan of ajaxUpdateExpect never succeeds before the first child's build-time node is seen stale, and afterwards answers with expectedElement exactly when that is displayed |
| `Ajax.AjaxUpdateEmptyWaitsForNoVisibleChild` | Tests/src/com/tle/webtests/pageobject/ExpectedConditions2.java:637-640 | the plan never answers null: false exactly while a displayed first child is found, true when the region has no child, and it raises exactly in a poll whose remote calls fail |

## Left out

- The polling driver (`waiter.until`, `ExpectWaiter`), its interval, its timeout and the exceptions it ignores are not part of this model. Only what each `apply` catches or lets escape is modelled. A run of polls is a sequence of `Session` values.
- `RefreshableElement.findNonWrapped`, `WrapsElement.getWrappedElement`, `AbstractPage.elementIfPresent` and `Check.isEmpty` are not part of this model. The model assumes findNonWrapped resolves the handle's current binding and raises NoSuchElement when it is unbound. It takes `Check.isEmpty` as "null or of length zero". The answer of `elementIfPresent` is a parameter of the dispatchers.
- Selenium's `isDisplayed`, `findElement(s)`, `getText`, `getAttribute` and `getWindowHandles` are observations of the `Session` snapshot, not their implementations.
- Frame switching, window switching and alert acceptance change the browser session. They are reduced to the returned marker: the frame node, the window handle or the alert. `frameToBeAvailableAndSwitchToIt` switches to the default content before it locates the frame, also when the lookup then fails. That effect is not modelled.
- `elementIsFocused` is not modelled. Its answer depends on `WebElement.equals` between a possibly wrapped handle and the driver's active element, which is not part of this model.
- Selenium's `ExpectedConditions.visibilityOf`, used by `ajaxUpdateExpect`, is not part of this repository. It appears only as the `VisibilityOf` plan, which `PlanRun` does not evaluate.
- The `toString` diagnostics and their `String.format` text are not modelled. Only the `lastValue` they print is.
- Null arguments (a null text, value or locator), and the `NullPointerException` they would cause, are not modelled.
- `AbstractAuthorWebPage.java`, `Search2ApiTest.java`, the TypeScript REST client files, `SearchOrderSelect.tsx` and `FacetSelector.mock.ts` are not part of this model. They are UI glue, HTTP tests, type declarations and mock data.
- A driver error (`Session.failure`) hits every remote call of a poll at once. So the model cannot express a poll in which some calls succeed and a later one raises a driver error, for instance an update condition that sees its watched element stale, clears `checkingStale`, and then fails to look up the target.
