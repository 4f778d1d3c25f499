/** The two-phase update conditions `updateOfElementLocated`,
    `updateOfElement` and `updateFromElementTo`.

    Each watches a real element captured when it is built.  In the first
    phase it only asks whether that element has gone stale; the first stale
    observation clears a one-way `checkingStale` flag, and from then on (in
    that same poll already) it answers with its target once the target is
    displayed.  The three differ only in the target: a located element, the
    refreshable handle itself, or a caller-supplied replacement. */
module Update {
  import opened Browser
  import Conditions

  /** What the second phase waits for. */
  datatype Target =
    | LocatedIn(context: Context, locator: Locator)   // updateOfElementLocated
    | Element(element: Handle)                          // updateOfElement, updateFromElementTo

  /** Why a factory refuses to build a condition. */
  datatype BuildError =
    | NotRefreshable            // `throw new Error("Will only work on wrapped elements")`
    | LookupFailed(fault: Fault) // resolving the handle at construction raised

  /** The element the second phase examines: the handle itself, or the
      first element the locator finds (or the fault of that lookup). */
  function TargetElement(target: Target, s: Session): (r: Result<Handle, Fault>)
    ensures target.Element? ==> r == Ok(target.element)
    ensures target.LocatedIn? ==> r == FindElement(s, target.context, target.locator)
  {
    match target
    case LocatedIn(context, locator) => FindElement(s, context, locator)
    case Element(h) => Ok(h)
  }

  /** The second-phase answer: the target once it is displayed, null while it
      is present but hidden; a fault of finding or reading it escapes. */
  function TargetEval(target: Target, s: Session): (r: Eval<Handle>)
    ensures r.Ready? <==> TargetElement(target, s).Ok? && Observe(s, TargetElement(target, s).value).Ok?
                          && Observe(s, TargetElement(target, s).value).value.displayed
    ensures r.Ready? ==> r.value == TargetElement(target, s).value
    ensures r == NotYet <==> TargetElement(target, s).Ok? && Observe(s, TargetElement(target, s).value).Ok?
                             && !Observe(s, TargetElement(target, s).value).value.displayed
    ensures TargetElement(target, s).Err? ==> r == Raised(TargetElement(target, s).error)
    ensures TargetElement(target, s).Ok? && Observe(s, TargetElement(target, s).value).Err? ==>
              r == Raised(Observe(s, TargetElement(target, s).value).error)
    ensures target.Element? ==> (r.Ready? <==> Observe(s, target.element).Ok? && Observe(s, target.element).value.displayed)
  {
    match target
    case LocatedIn(context, locator) => Conditions.VisibilityOfElementLocated(context, locator, s)
    case Element(h) => Conditions.ElementIfVisible(h, s)
  }

  /** The first-phase answer while the real element is not stale: null while
      it answers, the escaping fault otherwise. */
  function PhaseOne(realElement: Handle, s: Session): (r: Eval<Handle>)
    ensures !r.Ready?
    ensures r == NotYet <==> Observe(s, realElement).Ok?
    ensures Observe(s, realElement).Err? ==> r == Raised(Observe(s, realElement).error)
  {
    match Observe(s, realElement)
    case Ok(_) => NotYet
    case Err(f) => Raised(f)
  }

  datatype UpdateOutcome = UpdateOutcome(checking: bool, eval: Eval<Handle>)

  /** One `apply`: the new value of `checkingStale` and the answer. */
  function UpdateStep(checking: bool, realElement: Handle, target: Target, s: Session): (r: UpdateOutcome)
    ensures r.checking == (checking && !IsStale(s, realElement))
    ensures r.checking ==> checking
    ensures r.eval.Ready? ==> !r.checking
    ensures r.checking ==> r.eval == PhaseOne(realElement, s)
    ensures !r.checking ==> r.eval == TargetEval(target, s)
  {
    if checking then
      match Observe(s, realElement)
      case Ok(_) => UpdateOutcome(true, NotYet)
      case Err(f) =>
        if f == StaleElementReference then UpdateOutcome(false, TargetEval(target, s))
        else UpdateOutcome(true, Raised(f))
    else UpdateOutcome(false, TargetEval(target, s))
  }

  /** In the first phase, an `apply` depends on nothing but how the real
      element answers: neither the target nor any other part of the session
      is examined. */
  lemma PhaseOneIgnoresTarget(realElement: Handle, t1: Target, t2: Target, s1: Session, s2: Session)
    requires Observe(s1, realElement) == Observe(s2, realElement)
    requires !IsStale(s1, realElement)
    ensures UpdateStep(true, realElement, t1, s1) == UpdateStep(true, realElement, t2, s2)
    ensures UpdateStep(true, realElement, t1, s1).checking
  {
  }

  /** The answers to a run of polls fed to one condition, starting with the given flag. */
  function UpdateRun(checking: bool, realElement: Handle, target: Target, polls: seq<Session>): (r: seq<Eval<Handle>>)
    ensures |r| == |polls|
    decreases |polls|
  {
    if polls == [] then []
    else
      var step := UpdateStep(checking, realElement, target, polls[0]);
      [step.eval] + UpdateRun(step.checking, realElement, target, polls[1..])
  }

  /** The value of `checkingStale` after a run of polls. */
  function CheckingAfter(checking: bool, realElement: Handle, target: Target, polls: seq<Session>): bool
    decreases |polls|
  {
    if polls == [] then checking
    else CheckingAfter(UpdateStep(checking, realElement, target, polls[0]).checking, realElement, target, polls[1..])
  }

  /** Staleness of the real element was observed in one of the first i + 1 polls. */
  ghost predicate StaleBy(realElement: Handle, polls: seq<Session>, i: int) {
    exists j :: 0 <= j <= i && j < |polls| && IsStale(polls[j], realElement)
  }

  /** The flag is one-way: after a run it is still set exactly when it was
      set before and no poll of the run saw the real element stale. */
  lemma {:induction false} CheckingAfterRun(checking: bool, realElement: Handle, target: Target, polls: seq<Session>)
    ensures CheckingAfter(checking, realElement, target, polls)
            == (checking && forall j :: 0 <= j < |polls| ==> !IsStale(polls[j], realElement))
    decreases |polls|
  {
    if polls != [] {
      var next := UpdateStep(checking, realElement, target, polls[0]).checking;
      CheckingAfterRun(next, realElement, target, polls[1..]);
      assert forall j :: 1 <= j < |polls| ==> polls[1..][j - 1] == polls[j];
    }
  }

  /** Closed form of a run: poll i answers with the target once staleness
      has been seen (in poll i or before) or the flag was already clear, and
      with the first-phase answer otherwise. */
  lemma {:induction false} UpdateRunAt(checking: bool, realElement: Handle, target: Target, polls: seq<Session>, i: nat)
    requires i < |polls|
    ensures UpdateRun(checking, realElement, target, polls)[i]
            == if !checking || StaleBy(realElement, polls, i) then TargetEval(target, polls[i])
               else PhaseOne(realElement, polls[i])
    decreases |polls|
  {
    var step := UpdateStep(checking, realElement, target, polls[0]);
    if i > 0 {
      var rest := polls[1..];
      UpdateRunAt(step.checking, realElement, target, rest, i - 1);
      assert UpdateRun(checking, realElement, target, polls)[i] == UpdateRun(step.checking, realElement, target, rest)[i - 1];
      assert rest[i - 1] == polls[i];
      if StaleBy(realElement, rest, i - 1) {
        var j :| 0 <= j <= i - 1 && j < |rest| && IsStale(rest[j], realElement);
        assert IsStale(polls[j + 1], realElement);
      }
      if StaleBy(realElement, polls, i) && !IsStale(polls[0], realElement) {
        var j :| 0 <= j <= i && j < |polls| && IsStale(polls[j], realElement);
        assert j > 0 && rest[j - 1] == polls[j];
      }
    } else {
      if IsStale(polls[0], realElement) {
        assert StaleBy(realElement, polls, 0);
      }
    }
  }

  /** The update condition never succeeds before the real element has been
      seen stale: whatever the target does, a run that starts in the first
      phase answers only null or an escaping fault until then. */
  lemma NoUpdateBeforeStaleness(realElement: Handle, target: Target, polls: seq<Session>, i: nat)
    requires i < |polls|
    requires UpdateRun(true, realElement, target, polls)[i].Ready?
    ensures StaleBy(realElement, polls, i)
  {
    UpdateRunAt(true, realElement, target, polls, i);
  }

  /** Once staleness has been seen, every later poll answers as the target
      does: the target exactly when it is displayed, null while it is present
      but hidden; a fault of finding or reading the target escapes. */
  lemma UpdateAfterStaleness(realElement: Handle, target: Target, polls: seq<Session>, j: nat, i: nat)
    requires j <= i < |polls|
    requires IsStale(polls[j], realElement)
    ensures UpdateRun(true, realElement, target, polls)[i] == TargetEval(target, polls[i])
    ensures target.Element? ==>
              (UpdateRun(true, realElement, target, polls)[i] == Ready(target.element) <==>
               Observe(polls[i], target.element).Ok? && Observe(polls[i], target.element).value.displayed)
  {
    UpdateRunAt(true, realElement, target, polls, i);
    assert StaleBy(realElement, polls, i);
  }

  /** A two-phase update condition object. */
  class UpdateCondition {
    const realElement: Handle
    const target: Target
    var checkingStale: bool

    constructor (realElement: Handle, target: Target)
      ensures this.realElement == realElement && this.target == target
      ensures checkingStale
    {
      this.realElement := realElement;
      this.target := target;
      checkingStale := true;
    }

    /** `apply`: first wait until the real element is stale, then for the target to be displayed. */
    method Apply(s: Session) returns (r: Eval<Handle>)
      modifies this
      ensures UpdateOutcome(checkingStale, r) == UpdateStep(old(checkingStale), realElement, target, s)
      ensures checkingStale ==> old(checkingStale)
      ensures r.Ready? ==> !checkingStale
    {
      if checkingStale {
        match Observe(s, realElement)
        case Ok(_) =>
          return NotYet;
        case Err(f) =>
          if f != StaleElementReference {
            return Raised(f);
          }
          checkingStale := false;
      }
      r := TargetEval(target, s);
    }
  }

  /** The element `updateOfElementLocated` watches: a refreshable handle is
      resolved now, a wrapper is unwrapped, a plain handle is kept. */
  function LocatedCapture(element: Handle, s0: Session): (r: Result<Handle, Fault>)
    ensures r.Ok? ==> r.value.Plain?
    ensures !element.Refreshable? ==> r == Ok(Plain(element.node))
    ensures element.Refreshable? ==> r == FindNonWrapped(s0, element.key)
  {
    match element
    case Refreshable(k) => FindNonWrapped(s0, k)
    case Wrapped(n) => Ok(Plain(n))
    case Plain(n) => Ok(Plain(n))
  }

  /** The element `updateOfElement` and `updateFromElementTo` watch: only a
      refreshable handle is accepted, and it is resolved now. */
  function RefreshableCapture(element: Handle, s0: Session): (r: Result<Handle, BuildError>)
    ensures r == Err(NotRefreshable) <==> !element.Refreshable?
    ensures element.Refreshable? && r.Ok? ==> FindNonWrapped(s0, element.key) == Ok(r.value)
    ensures element.Refreshable? && r.Err? ==> FindNonWrapped(s0, element.key).Err? && r.error == LookupFailed(FindNonWrapped(s0, element.key).error)
  {
    match element
    case Refreshable(k) =>
      (match FindNonWrapped(s0, k)
       case Ok(h) => Ok(h)
       case Err(f) => Err(LookupFailed(f)))
    case _ => Err(NotRefreshable)
  }

  /** `updateOfElementLocated(element, context, locator)`, built in session s0. */
  method UpdateOfElementLocated(element: Handle, context: Context, locator: Locator, s0: Session)
    returns (r: Result<UpdateCondition, BuildError>)
    ensures r.Err? <==> LocatedCapture(element, s0).Err?
    ensures r.Err? ==> r.error == LookupFailed(LocatedCapture(element, s0).error)
    ensures r.Ok? ==> fresh(r.value) && r.value.checkingStale
                      && r.value.realElement == LocatedCapture(element, s0).value
                      && r.value.target == LocatedIn(context, locator)
  {
    match LocatedCapture(element, s0)
    case Ok(watched) =>
      var c := new UpdateCondition(watched, LocatedIn(context, locator));
      r := Ok(c);
    case Err(f) =>
      r := Err(LookupFailed(f));
  }

  /** `updateOfElement(element)`, built in session s0: fails fast on a handle that is not refreshable. */
  method UpdateOfElement(element: Handle, s0: Session) returns (r: Result<UpdateCondition, BuildError>)
    ensures !element.Refreshable? ==> r == Err(NotRefreshable)
    ensures r.Err? <==> RefreshableCapture(element, s0).Err?
    ensures r.Err? ==> r.error == RefreshableCapture(element, s0).error
    ensures r.Ok? ==> fresh(r.value) && r.value.checkingStale
                      && r.value.realElement == RefreshableCapture(element, s0).value
                      && r.value.target == Element(element)
  {
    match RefreshableCapture(element, s0)
    case Ok(watched) =>
      var c := new UpdateCondition(watched, Element(element));
      r := Ok(c);
    case Err(e) =>
      r := Err(e);
  }

  /** `updateFromElementTo(from, to)`, built in session s0: fails fast when `from` is not refreshable. */
  method UpdateFromElementTo(from: Handle, to: Handle, s0: Session) returns (r: Result<UpdateCondition, BuildError>)
    ensures !from.Refreshable? ==> r == Err(NotRefreshable)
    ensures r.Err? <==> RefreshableCapture(from, s0).Err?
    ensures r.Err? ==> r.error == RefreshableCapture(from, s0).error
    ensures r.Ok? ==> fresh(r.value) && r.value.checkingStale
                      && r.value.realElement == RefreshableCapture(from, s0).value
                      && r.value.target == Element(to)
  {
    match RefreshableCapture(from, s0)
    case Ok(watched) =>
      var c := new UpdateCondition(watched, Element(to));
      r := Ok(c);
    case Err(e) =>
      r := Err(e);
  }
}
