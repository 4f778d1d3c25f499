/** The dispatchers `ajaxUpdate`, `ajaxUpdateExpect` and `ajaxUpdateEmpty`,
    which pick a condition for "this dynamic region has been redrawn".

    A dispatcher's answer is modelled as a `Plan`: which condition it builds
    and with what arguments.  The lookup of the region's first child
    (`AbstractPage.elementIfPresent`) is not part of this model; its answer,
    a handle or null, is a parameter. */
module Ajax {
  import opened Browser
  import opened Update
  import Conditions

  /** The locator for a region's first child element. */
  const FirstElement: Locator := "*[1]"

  datatype Plan =
    | UpdateOf(realElement: Handle, target: Target)           // the `UpdateCondition` a factory of `Update` builds
    | VisibilityOfLocated(context: Context, locator: Locator) // `visibilityOfElementLocated`
    | VisibilityOf(element: Handle)                           // Selenium's own `ExpectedConditions.visibilityOf`
    | InvisibilityOfLocated(context: Context, locator: Locator) // `invisibilityOfElementLocated`

  /** `ajaxUpdate(ajaxElem)`: with a first child, wait for that child's
      two-phase update, the condition `Update.UpdateOfElement` builds from the
      same `RefreshableCapture`; with none, there is nothing to go stale, so
      wait for a first child to become visible. */
  function AjaxUpdate(ajaxElem: Handle, firstChild: Option<Handle>, s0: Session): (r: Result<Plan, BuildError>)
    ensures firstChild.None? ==> r == Ok(VisibilityOfLocated(Within(ajaxElem), FirstElement))
    ensures firstChild.Some? && !firstChild.value.Refreshable? ==> r == Err(NotRefreshable)
    ensures firstChild.Some? ==> (r.Ok? <==> RefreshableCapture(firstChild.value, s0).Ok?)
    ensures firstChild.Some? && r.Ok? ==>
              r.value == UpdateOf(RefreshableCapture(firstChild.value, s0).value, Element(firstChild.value))
  {
    match firstChild
    case None => Ok(VisibilityOfLocated(Within(ajaxElem), FirstElement))
    case Some(child) =>
      match RefreshableCapture(child, s0)
      case Ok(watched) => Ok(UpdateOf(watched, Element(child)))
      case Err(e) => Err(e)
  }

  /** `ajaxUpdateExpect(ajaxElem, expectedElement)`: with a first child, wait
      for it to go stale and then for `expectedElement`, the condition
      `Update.UpdateFromElementTo` builds from the same `RefreshableCapture`;
      with none, wait for `expectedElement` to be visible. */
  function AjaxUpdateExpect(ajaxElem: Handle, expectedElement: Handle, firstChild: Option<Handle>, s0: Session)
    : (r: Result<Plan, BuildError>)
    ensures firstChild.None? ==> r == Ok(VisibilityOf(expectedElement))
    ensures firstChild.Some? && !firstChild.value.Refreshable? ==> r == Err(NotRefreshable)
    ensures firstChild.Some? ==> (r.Ok? <==> RefreshableCapture(firstChild.value, s0).Ok?)
    ensures firstChild.Some? && r.Ok? ==>
              r.value == UpdateOf(RefreshableCapture(firstChild.value, s0).value, Element(expectedElement))
  {
    match firstChild
    case None => Ok(VisibilityOf(expectedElement))
    case Some(child) =>
      match RefreshableCapture(child, s0)
      case Ok(watched) => Ok(UpdateOf(watched, Element(expectedElement)))
      case Err(e) => Err(e)
  }

  /** `ajaxUpdateEmpty(ajaxElem)`: wait for the region to have no visible first child. */
  function AjaxUpdateEmpty(ajaxElem: Handle): (r: Plan)
    ensures r.InvisibilityOfLocated? && r.context == Within(ajaxElem) && r.locator == FirstElement
  {
    InvisibilityOfLocated(Within(ajaxElem), FirstElement)
  }

  /** What a planned condition answers: an element, or a Boolean. */
  datatype Answer = Got(element: Handle) | Holds(flag: bool)

  function AsElement(e: Eval<Handle>): Eval<Answer> {
    match e
    case Ready(h) => Ready(Got(h))
    case NotYet => NotYet
    case Raised(f) => Raised(f)
  }

  function AsFlag(e: Eval<bool>): Eval<Answer> {
    match e
    case Ready(b) => Ready(Holds(b))
    case NotYet => NotYet
    case Raised(f) => Raised(f)
  }

  /** The answers the condition a plan describes gives, freshly built, to a
      run of polls.  Selenium's `visibilityOf` is not part of this model, so
      that plan has no answers here. */
  function PlanRun(p: Plan, polls: seq<Session>): (r: seq<Eval<Answer>>)
    requires !p.VisibilityOf?
    ensures |r| == |polls|
  {
    match p
    case UpdateOf(realElement, target) =>
      var run := UpdateRun(true, realElement, target, polls);
      seq(|polls|, i requires 0 <= i < |polls| => AsElement(run[i]))
    case VisibilityOfLocated(context, locator) =>
      seq(|polls|, i requires 0 <= i < |polls| => AsElement(Conditions.VisibilityOfElementLocated(context, locator, polls[i])))
    case InvisibilityOfLocated(context, locator) =>
      seq(|polls|, i requires 0 <= i < |polls| => AsFlag(Conditions.InvisibilityOfElementLocated(context, locator, polls[i])))
  }

  /** The update plan of `ajaxUpdate` watches the node its first child was
      bound to when the plan was made: it never succeeds before that node has
      been seen stale, and from then on it answers with the child handle,
      looked up again, exactly when that is displayed. */
  lemma AjaxUpdateWatchesFirstChild(ajaxElem: Handle, key: nat, s0: Session, polls: seq<Session>, i: nat)
    requires s0.failure.None? && key in s0.bindings
    requires i < |polls|
    ensures AjaxUpdate(ajaxElem, Some(Refreshable(key)), s0)
            == Ok(UpdateOf(Plain(s0.bindings[key]), Element(Refreshable(key))))
    ensures PlanRun(AjaxUpdate(ajaxElem, Some(Refreshable(key)), s0).value, polls)[i].Ready? ==>
              StaleBy(Plain(s0.bindings[key]), polls, i)
    ensures StaleBy(Plain(s0.bindings[key]), polls, i) ==>
              (PlanRun(AjaxUpdate(ajaxElem, Some(Refreshable(key)), s0).value, polls)[i] == Ready(Got(Refreshable(key)))
               <==> Observe(polls[i], Refreshable(key)).Ok? && Observe(polls[i], Refreshable(key)).value.displayed)
  {
    UpdateRunAt(true, Plain(s0.bindings[key]), Element(Refreshable(key)), polls, i);
  }

  /** Without a first child, the plan of `ajaxUpdate` answers with the
      region's first child once it is displayed; while the region has no
      child the lookup raises `NoSuchElementException`. */
  lemma AjaxUpdateWithoutChild(ajaxElem: Handle, s0: Session, polls: seq<Session>, i: nat)
    requires i < |polls|
    ensures AjaxUpdate(ajaxElem, None, s0) == Ok(VisibilityOfLocated(Within(ajaxElem), FirstElement))
    ensures PlanRun(AjaxUpdate(ajaxElem, None, s0).value, polls)[i].Ready? <==>
              FindElement(polls[i], Within(ajaxElem), FirstElement).Ok?
              && Observe(polls[i], FindElement(polls[i], Within(ajaxElem), FirstElement).value).Ok?
              && Observe(polls[i], FindElement(polls[i], Within(ajaxElem), FirstElement).value).value.displayed
    ensures FindElements(polls[i], Within(ajaxElem), FirstElement) == Ok([]) ==>
              PlanRun(AjaxUpdate(ajaxElem, None, s0).value, polls)[i] == Raised(NoSuchElement)
  {
  }

  /** The update plan of `ajaxUpdateExpect` watches the node the first child
      was bound to when the plan was made: it never succeeds before that node
      has been seen stale, and from then on it answers with `expectedElement`
      exactly when that is displayed. */
  lemma AjaxUpdateExpectWaitsForExpected(ajaxElem: Handle, expectedElement: Handle, key: nat, s0: Session,
                                         polls: seq<Session>, i: nat)
    requires s0.failure.None? && key in s0.bindings
    requires i < |polls|
    ensures AjaxUpdateExpect(ajaxElem, expectedElement, Some(Refreshable(key)), s0)
            == Ok(UpdateOf(Plain(s0.bindings[key]), Element(expectedElement)))
    ensures PlanRun(AjaxUpdateExpect(ajaxElem, expectedElement, Some(Refreshable(key)), s0).value, polls)[i].Ready? ==>
              StaleBy(Plain(s0.bindings[key]), polls, i)
    ensures StaleBy(Plain(s0.bindings[key]), polls, i) ==>
              (PlanRun(AjaxUpdateExpect(ajaxElem, expectedElement, Some(Refreshable(key)), s0).value, polls)[i]
                 == Ready(Got(expectedElement))
               <==> Observe(polls[i], expectedElement).Ok? && Observe(polls[i], expectedElement).value.displayed)
  {
    UpdateRunAt(true, Plain(s0.bindings[key]), Element(expectedElement), polls, i);
  }

  /** The plan of `ajaxUpdateEmpty` never answers null: it answers false
      exactly while a displayed first child is found, true as soon as the
      region has no child (or only a hidden or stale one), and raises exactly
      in a poll whose remote calls fail. */
  lemma AjaxUpdateEmptyWaitsForNoVisibleChild(ajaxElem: Handle, polls: seq<Session>, i: nat)
    requires i < |polls|
    ensures PlanRun(AjaxUpdateEmpty(ajaxElem), polls)[i] != NotYet
    ensures PlanRun(AjaxUpdateEmpty(ajaxElem), polls)[i].Raised? <==> polls[i].failure.Some?
    ensures PlanRun(AjaxUpdateEmpty(ajaxElem), polls)[i] == Ready(Holds(false)) <==>
              FindElement(polls[i], Within(ajaxElem), FirstElement).Ok?
              && Observe(polls[i], FindElement(polls[i], Within(ajaxElem), FirstElement).value).Ok?
              && Observe(polls[i], FindElement(polls[i], Within(ajaxElem), FirstElement).value).value.displayed
    ensures FindElements(polls[i], Within(ajaxElem), FirstElement) == Ok([]) ==>
              PlanRun(AjaxUpdateEmpty(ajaxElem), polls)[i] == Ready(Holds(true))
  {
  }
}
