/** The remote browser session as a wait condition sees it during one poll.

    A condition never inspects the browser directly: every question it asks
    (is this element displayed, what is its text, what does this locator find,
    which windows are open) is answered from a `Session` snapshot, or fails
    with one of the driver's exceptions (`Fault`).  A sequence of snapshots is
    what a polling driver feeds to one condition object. */
module Browser {

  datatype Option<+T> = None | Some(value: T)

  datatype Result<+T, +E> = Ok(value: T) | Err(error: E)

  type NodeId = nat

  /** A locator expression, for instance the XPath `*[1]`. */
  type Locator = string

  /** The exceptions a remote call can raise: the four the conditions name
      (`StaleElementReferenceException`, `NoSuchElementException`,
      `NoSuchFrameException`, `NoAlertPresentException`) and every other
      `WebDriverException`, told apart by a code. */
  datatype Fault =
    | StaleElementReference
    | NoSuchElement
    | NoSuchFrame
    | NoAlertPresent
    | WebDriverError(code: nat)

  /** A node of the document that is still attached. */
  datatype Node = Node(displayed: bool, text: string, attributes: map<string, string>)

  /** An element handle.  A plain handle and a wrapper (`WrapsElement`) both
      stand for one fixed node; a refreshable handle (`RefreshableElement`)
      is looked up again, by its key, every time it is used. */
  datatype Handle =
    | Plain(node: NodeId)
    | Wrapped(node: NodeId)
    | Refreshable(key: nat)

  /** A search context: the whole page (the driver) or the subtree below an element. */
  datatype Context = Page | Within(element: Handle)

  /** What a locator is asked from: the root node of the subtree (None for the page). */
  datatype Query = Query(scope: Option<NodeId>, locator: Locator)

  /** One snapshot of the session.
      - nodes: the attached nodes; a node id missing here has been removed, so a handle to it is stale;
      - bindings: the node each refreshable handle resolves to now; a key missing here finds nothing;
      - matches: the nodes each query matches, in document order; a missing query matches nothing;
      - windows: the open window handles in the order the driver lists them;
      - frames: the nodes that are frames;
      - alert: the open alert, if any;
      - failure: a driver error that every remote call of this poll raises. */
  datatype Session = Session(
    nodes: map<NodeId, Node>,
    bindings: map<nat, NodeId>,
    matches: map<Query, seq<NodeId>>,
    windows: seq<string>,
    frames: set<NodeId>,
    alert: Option<nat>,
    failure: Option<nat>)

  /** One evaluation of a condition: a non-null result, null ("not yet"), or
      an exception that escapes the condition.  For a `Boolean` condition
      `Ready(b)` is the Boolean returned and `NotYet` is a returned null. */
  datatype Eval<+T> = Ready(value: T) | NotYet | Raised(fault: Fault)

  /** The faults that mean the element is gone: the handle is stale, or it names nothing. */
  predicate Gone(f: Fault) {
    f == StaleElementReference || f == NoSuchElement
  }

  /** The attached node a handle refers to in this poll. */
  function Locate(s: Session, h: Handle): (r: Result<NodeId, Fault>)
    ensures s.failure.Some? ==> r == Err(WebDriverError(s.failure.value))
    ensures s.failure.None? && r.Err? ==> Gone(r.error)
    ensures r.Ok? ==> r.value in s.nodes
    ensures s.failure.None? && h.Refreshable? ==> (r == Err(NoSuchElement) <==> h.key !in s.bindings)
    ensures s.failure.None? && !h.Refreshable? ==> r == (if h.node in s.nodes then Ok(h.node) else Err(StaleElementReference))
  {
    if s.failure.Some? then Err(WebDriverError(s.failure.value))
    else match h
      case Plain(n) => if n in s.nodes then Ok(n) else Err(StaleElementReference)
      case Wrapped(n) => if n in s.nodes then Ok(n) else Err(StaleElementReference)
      case Refreshable(k) =>
        if k !in s.bindings then Err(NoSuchElement)
        else if s.bindings[k] in s.nodes then Ok(s.bindings[k])
        else Err(StaleElementReference)
  }

  /** Any operation on an element handle (`isDisplayed`, `getText`, `getAttribute`): the node, or the fault. */
  function Observe(s: Session, h: Handle): (r: Result<Node, Fault>)
    ensures r.Ok? <==> Locate(s, h).Ok?
    ensures r.Ok? ==> r.value == s.nodes[Locate(s, h).value]
    ensures r.Err? ==> r.error == Locate(s, h).error
  {
    match Locate(s, h)
    case Ok(n) => Ok(s.nodes[n])
    case Err(f) => Err(f)
  }

  /** The handle refers to a removed node: an operation on it raises `StaleElementReferenceException`. */
  predicate IsStale(s: Session, h: Handle) {
    Observe(s, h) == Err(StaleElementReference)
  }

  /** The root of a search context, or the fault that using the context raises. */
  function Scope(s: Session, context: Context): (r: Result<Option<NodeId>, Fault>)
    ensures s.failure.Some? ==> r == Err(WebDriverError(s.failure.value))
    ensures context.Page? && s.failure.None? ==> r == Ok(None)
  {
    match context
    case Page => if s.failure.Some? then Err(WebDriverError(s.failure.value)) else Ok(None)
    case Within(h) =>
      match Locate(s, h)
      case Ok(n) => Ok(Some(n))
      case Err(f) => Err(f)
  }

  /** The nodes a query matches. */
  function Matches(s: Session, q: Query): seq<NodeId> {
    if q in s.matches then s.matches[q] else []
  }

  /** Plain handles to the given nodes, in the same order. */
  function Plains(ns: seq<NodeId>): (r: seq<Handle>)
    ensures |r| == |ns|
    ensures forall i :: 0 <= i < |ns| ==> r[i] == Plain(ns[i])
  {
    seq(|ns|, i requires 0 <= i < |ns| => Plain(ns[i]))
  }

  /** `context.findElements(locator)`: every match, possibly none. */
  function FindElements(s: Session, context: Context, locator: Locator): (r: Result<seq<Handle>, Fault>)
    ensures r.Err? <==> Scope(s, context).Err?
    ensures r.Err? ==> r.error == Scope(s, context).error
    ensures r.Ok? ==> r.value == Plains(Matches(s, Query(Scope(s, context).value, locator)))
  {
    match Scope(s, context)
    case Ok(root) => Ok(Plains(Matches(s, Query(root, locator))))
    case Err(f) => Err(f)
  }

  /** `context.findElement(locator)`: the first match; `NoSuchElementException` when there is none. */
  function FindElement(s: Session, context: Context, locator: Locator): (r: Result<Handle, Fault>)
    ensures r.Ok? <==> FindElements(s, context, locator).Ok? && |FindElements(s, context, locator).value| > 0
    ensures r.Ok? ==> r.value == FindElements(s, context, locator).value[0]
    ensures FindElements(s, context, locator) == Ok([]) ==> r == Err(NoSuchElement)
    ensures FindElements(s, context, locator).Err? ==> r == Err(FindElements(s, context, locator).error)
  {
    match FindElements(s, context, locator)
    case Ok(hs) => if |hs| == 0 then Err(NoSuchElement) else Ok(hs[0])
    case Err(f) => Err(f)
  }

  /** `RefreshableElement.findNonWrapped()`: the node the refreshable handle resolves to now, as a plain handle. */
  function FindNonWrapped(s: Session, key: nat): (r: Result<Handle, Fault>)
    ensures r.Ok? ==> s.failure.None? && key in s.bindings && r.value == Plain(s.bindings[key])
    ensures s.failure.None? && key !in s.bindings ==> r == Err(NoSuchElement)
  {
    if s.failure.Some? then Err(WebDriverError(s.failure.value))
    else if key in s.bindings then Ok(Plain(s.bindings[key]))
    else Err(NoSuchElement)
  }
}
