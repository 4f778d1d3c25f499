/** The stateless wait conditions: each evaluation is a case analysis of what
    one poll observes.  A condition built by a factory of the Java class is
    modelled by the function of the same name, taking the factory's
    arguments and the session of the poll. */
module Conditions {
  import opened Browser

  /** The locator `ChildCount` asks for: the element's immediate children. */
  const ChildrenLocator: Locator := "./*"

  /** `elementIfVisible`: the element when it is displayed, null when it is
      not; an operation on a gone element raises, and nothing is caught. */
  function ElementIfVisible(element: Handle, s: Session): (r: Eval<Handle>)
    ensures r.Ready? <==> Observe(s, element).Ok? && Observe(s, element).value.displayed
    ensures r.Ready? ==> r.value == element
    ensures r == NotYet <==> Observe(s, element).Ok? && !Observe(s, element).value.displayed
    ensures Observe(s, element).Err? ==> r == Raised(Observe(s, element).error)
  {
    match Observe(s, element)
    case Ok(n) => if n.displayed then Ready(element) else NotYet
    case Err(f) => Raised(f)
  }

  /** `visibilityOfElementLocated`: the first element the locator finds, once
      it is displayed.  No exception is caught, so a locator that finds
      nothing raises `NoSuchElementException` rather than answering null. */
  function VisibilityOfElementLocated(context: Context, locator: Locator, s: Session): (r: Eval<Handle>)
    ensures r.Ready? <==> FindElement(s, context, locator).Ok? && Observe(s, FindElement(s, context, locator).value).Ok?
                          && Observe(s, FindElement(s, context, locator).value).value.displayed
    ensures r.Ready? ==> r.value == FindElement(s, context, locator).value
    ensures r == NotYet <==> FindElement(s, context, locator).Ok? && Observe(s, FindElement(s, context, locator).value).Ok?
                             && !Observe(s, FindElement(s, context, locator).value).value.displayed
    ensures FindElement(s, context, locator).Err? ==> r == Raised(FindElement(s, context, locator).error)
    ensures FindElement(s, context, locator).Ok? && Observe(s, FindElement(s, context, locator).value).Err? ==>
              r == Raised(Observe(s, FindElement(s, context, locator).value).error)
    ensures FindElements(s, context, locator) == Ok([]) ==> r == Raised(NoSuchElement)
  {
    match FindElement(s, context, locator)
    case Ok(h) => ElementIfVisible(h, s)
    case Err(f) => Raised(f)
  }

  /** `presenceOfElement`: the element while it answers, null once it is
      stale or cannot be found; any other driver error escapes. */
  function PresenceOfElement(element: Handle, s: Session): (r: Eval<Handle>)
    ensures r == Ready(element) <==> Observe(s, element).Ok?
    ensures r == NotYet <==> Observe(s, element).Err? && Gone(Observe(s, element).error)
    ensures r.Raised? <==> s.failure.Some?
    ensures r.Raised? ==> r.fault == WebDriverError(s.failure.value)
  {
    match Observe(s, element)
    case Ok(_) => Ready(element)
    case Err(f) => if Gone(f) then NotYet else Raised(f)
  }

  /** The element a stateless condition watches when it unwraps refreshable
      handles at construction time (`stalenessOrNonPresenceOf`,
      `elementAttributeToContain`): a refreshable handle is resolved once,
      with `findNonWrapped`, and every other handle is kept as it is. */
  function CaptureIfRefreshable(element: Handle, s0: Session): (r: Result<Handle, Fault>)
    ensures !element.Refreshable? ==> r == Ok(element)
    ensures element.Refreshable? ==> r == FindNonWrapped(s0, element.key)
    ensures r.Ok? ==> r.value.Refreshable? == false
  {
    match element
    case Refreshable(k) => FindNonWrapped(s0, k)
    case _ => Ok(element)
  }

  /** `stalenessOrNonPresenceOf`, applied to the element captured at
      construction: false while it answers, true once it is stale or cannot
      be found; any other driver error escapes. */
  function StalenessOrNonPresenceOf(realElement: Handle, s: Session): (r: Eval<bool>)
    ensures r == Ready(false) <==> Observe(s, realElement).Ok?
    ensures r == Ready(true) <==> Observe(s, realElement).Err? && Gone(Observe(s, realElement).error)
    ensures r != NotYet
    ensures r.Raised? <==> s.failure.Some?
    ensures r.Raised? ==> r.fault == WebDriverError(s.failure.value)
  {
    match Observe(s, realElement)
    case Ok(_) => Ready(false)
    case Err(f) => if Gone(f) then Ready(true) else Raised(f)
  }

  /** Applied to the same watched handle, presence and staleness-or-absence
      are exact complements: whenever one is satisfied the other is not, and
      they fail together.  (The factories do not watch the same handle when
      given a refreshable one; see `CapturedStalenessDivergesFromPresence`.) */
  lemma PresenceComplementsStaleness(h: Handle, s: Session)
    ensures PresenceOfElement(h, s).Ready? <==> StalenessOrNonPresenceOf(h, s) == Ready(false)
    ensures PresenceOfElement(h, s) == NotYet <==> StalenessOrNonPresenceOf(h, s) == Ready(true)
    ensures PresenceOfElement(h, s).Raised? <==> StalenessOrNonPresenceOf(h, s).Raised?
    ensures PresenceOfElement(h, s).Raised? ==> PresenceOfElement(h, s).fault == StalenessOrNonPresenceOf(h, s).fault
  {
  }

  /** Given one refreshable handle, the two factories watch different things:
      `presenceOfElement` looks the handle up again on every poll, while
      `stalenessOrNonPresenceOf` watches the node it was bound to at
      construction.  Once the handle has been rebound to a new node and the
      old one removed, both conditions are satisfied in the same poll. */
  lemma CapturedStalenessDivergesFromPresence(key: nat, s0: Session, s: Session)
    requires s0.failure.None? && key in s0.bindings
    requires s.failure.None? && key in s.bindings && s.bindings[key] in s.nodes
    requires s0.bindings[key] !in s.nodes
    ensures CaptureIfRefreshable(Refreshable(key), s0) == Ok(Plain(s0.bindings[key]))
    ensures PresenceOfElement(Refreshable(key), s) == Ready(Refreshable(key))
    ensures StalenessOrNonPresenceOf(CaptureIfRefreshable(Refreshable(key), s0).value, s) == Ready(true)
  {
  }

  /** `invisibilityOf`: the element once it is not displayed, null while it
      is; nothing is caught, so even a stale element raises. */
  function InvisibilityOf(element: Handle, s: Session): (r: Eval<Handle>)
    ensures r.Ready? <==> Observe(s, element).Ok? && !Observe(s, element).value.displayed
    ensures r.Ready? ==> r.value == element
    ensures r == NotYet <==> Observe(s, element).Ok? && Observe(s, element).value.displayed
    ensures Observe(s, element).Err? ==> r == Raised(Observe(s, element).error)
  {
    match Observe(s, element)
    case Ok(n) => if n.displayed then NotYet else Ready(element)
    case Err(f) => Raised(f)
  }

  /** Visibility and invisibility of one handle split every answering poll
      between them, and raise in the same polls. */
  lemma VisibilityExcludesInvisibility(h: Handle, s: Session)
    ensures ElementIfVisible(h, s).Ready? <==> InvisibilityOf(h, s) == NotYet
    ensures ElementIfVisible(h, s) == NotYet <==> InvisibilityOf(h, s).Ready?
    ensures ElementIfVisible(h, s).Raised? <==> InvisibilityOf(h, s).Raised?
  {
  }

  /** `invisibilityOfElementLocated`: true when the locator finds nothing,
      when what it found is stale, or when it is not displayed; false only
      when it found a displayed element.  It raises only on a driver error. */
  function InvisibilityOfElementLocated(context: Context, locator: Locator, s: Session): (r: Eval<bool>)
    ensures r == Ready(false) <==>
              FindElement(s, context, locator).Ok? && Observe(s, FindElement(s, context, locator).value).Ok?
              && Observe(s, FindElement(s, context, locator).value).value.displayed
    ensures s.failure.None? && FindElements(s, context, locator) == Ok([]) ==> r == Ready(true)
    ensures r != NotYet
    ensures r.Raised? <==> s.failure.Some?
    ensures r.Raised? ==> r.fault == WebDriverError(s.failure.value)
  {
    match FindElement(s, context, locator)
    case Err(f) => if Gone(f) then Ready(true) else Raised(f)
    case Ok(h) =>
      match Observe(s, h)
      case Ok(n) => Ready(!n.displayed)
      case Err(f) => if Gone(f) then Ready(true) else Raised(f)
  }

  /** `numberOfElementLocated`: the list of matches exactly when it has
      `count` elements, null otherwise; nothing is caught. */
  function NumberOfElementLocated(context: Context, locator: Locator, count: int, s: Session): (r: Eval<seq<Handle>>)
    ensures r.Ready? <==> FindElements(s, context, locator).Ok? && |FindElements(s, context, locator).value| == count
    ensures r.Ready? ==> r.value == FindElements(s, context, locator).value
    ensures r == NotYet <==> FindElements(s, context, locator).Ok? && |FindElements(s, context, locator).value| != count
    ensures FindElements(s, context, locator).Err? ==> r == Raised(FindElements(s, context, locator).error)
    ensures count < 0 ==> !r.Ready?
  {
    match FindElements(s, context, locator)
    case Ok(hs) => if |hs| == count then Ready(hs) else NotYet
    case Err(f) => Raised(f)
  }

  /** Over a run of polls, `numberOfElementLocated` is first satisfied in the
      first poll whose match count equals `count`, and returns that poll's matches. */
  lemma NumberOfElementLocatedFirstMatch(context: Context, locator: Locator, count: int, polls: seq<Session>, i: nat)
    requires i < |polls|
    requires forall j :: 0 <= j < i ==> FindElements(polls[j], context, locator).Ok?
                                        && |FindElements(polls[j], context, locator).value| != count
    requires FindElements(polls[i], context, locator).Ok? && |FindElements(polls[i], context, locator).value| == count
    ensures forall j :: 0 <= j < i ==> NumberOfElementLocated(context, locator, count, polls[j]) == NotYet
    ensures NumberOfElementLocated(context, locator, count, polls[i]) == Ready(FindElements(polls[i], context, locator).value)
  {
  }

  /** `childCount`: true exactly when the element has `expectedCount`
      immediate children, null otherwise (never false); a missing element
      answers null, a stale one raises. */
  function ChildCount(element: Handle, expectedCount: int, s: Session): (r: Eval<bool>)
    ensures r == Ready(true) <==> FindElements(s, Within(element), ChildrenLocator).Ok?
                                  && |FindElements(s, Within(element), ChildrenLocator).value| == expectedCount
    ensures r != Ready(false)
    ensures r.Raised? <==> FindElements(s, Within(element), ChildrenLocator).Err?
                           && FindElements(s, Within(element), ChildrenLocator).error != NoSuchElement
    ensures r.Raised? ==> r.fault == FindElements(s, Within(element), ChildrenLocator).error
    ensures IsStale(s, element) ==> r == Raised(StaleElementReference)
  {
    match FindElements(s, Within(element), ChildrenLocator)
    case Ok(children) => if |children| == expectedCount then Ready(true) else NotYet
    case Err(f) => if f == NoSuchElement then NotYet else Raised(f)
  }

  /** `frameToBeAvailableAndSwitchToIt`, with the switch reduced to a
      marker: the frame node it switched to, null when the locator finds
      nothing or finds something that is not a frame. */
  function FrameToBeAvailableAndSwitchToIt(context: Context, locator: Locator, s: Session): (r: Eval<NodeId>)
    ensures r.Ready? ==> FindElement(s, context, locator) == Ok(Plain(r.value)) && r.value in s.frames && r.value in s.nodes
    ensures FindElement(s, context, locator).Ok? && Locate(s, FindElement(s, context, locator).value).Ok? ==>
              (r.Ready? <==> Locate(s, FindElement(s, context, locator).value).value in s.frames)
    ensures FindElement(s, context, locator) == Err(NoSuchElement) ==> r == NotYet
    ensures FindElement(s, context, locator).Err? && FindElement(s, context, locator).error != NoSuchElement ==>
              r == Raised(FindElement(s, context, locator).error)
    ensures FindElement(s, context, locator).Ok? && Locate(s, FindElement(s, context, locator).value).Err? ==>
              r == Raised(Locate(s, FindElement(s, context, locator).value).error)
    ensures FindElement(s, context, locator).Ok? && Locate(s, FindElement(s, context, locator).value).Ok?
            && Locate(s, FindElement(s, context, locator).value).value !in s.frames
            ==> r == NotYet
    ensures r.Raised? ==> r.fault != NoSuchElement && r.fault != NoSuchFrame
  {
    match FindElement(s, context, locator)
    case Err(f) => if f == NoSuchElement then NotYet else Raised(f)
    case Ok(h) =>
      match Locate(s, h)
      case Err(f) => Raised(f)
      case Ok(n) => if n in s.frames then Ready(n) else NotYet
  }

  /** `acceptAlert`, with the acceptance reduced to a marker: the open alert
      it accepted, null while no alert is present. */
  function AcceptAlert(s: Session): (r: Eval<nat>)
    ensures r.Ready? <==> s.failure.None? && s.alert.Some?
    ensures r.Ready? ==> r.value == s.alert.value
    ensures r == NotYet <==> s.failure.None? && s.alert.None?
  {
    if s.failure.Some? then Raised(WebDriverError(s.failure.value))
    else match s.alert
      case Some(a) => Ready(a)
      case None => NotYet
  }
}
