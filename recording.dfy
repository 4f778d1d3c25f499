/** The text and attribute conditions.  Each keeps a `lastValue` field that
    every evaluation overwrites with the value it has just read, so that the
    condition's description can report what was last seen, also on the
    evaluation that succeeds.  A read that raises leaves the field as it was. */
module Recording {
  import opened Browser
  import Conditions

  /** A `String` the condition reads (None standing for null), or the fault the read raised. */
  type Reading = Result<Option<string>, Fault>

  /** The answer of one evaluation and the new `lastValue`. */
  datatype Poll<+T> = Poll(last: Option<string>, eval: Eval<T>)

  /** `t` occurs in `s` at position i. */
  predicate OccursAt(s: string, t: string, i: nat) {
    i + |t| <= |s| && s[i..i + |t|] == t
  }

  /** `s.contains(t)`. */
  predicate Contains(s: string, t: string) {
    exists i: nat :: i <= |s| && OccursAt(s, t, i)
  }

  /** Every string contains the empty string. */
  lemma ContainsEmpty(s: string)
    ensures Contains(s, "")
  {
    assert OccursAt(s, "", 0);
  }

  /** `element.getText()`: never null. */
  function TextOf(s: Session, element: Handle): (r: Reading)
    ensures r.Ok? <==> Observe(s, element).Ok?
    ensures r.Ok? ==> r.value == Some(Observe(s, element).value.text)
    ensures r.Err? ==> r.error == Observe(s, element).error
  {
    match Observe(s, element)
    case Ok(n) => Ok(Some(n.text))
    case Err(f) => Err(f)
  }

  /** `element.getAttribute(name)`: null when the element has no such attribute. */
  function AttributeOf(s: Session, element: Handle, name: string): (r: Reading)
    ensures r.Ok? <==> Observe(s, element).Ok?
    ensures r.Ok? ==> (r.value.Some? <==> name in Observe(s, element).value.attributes)
    ensures r.Ok? && r.value.Some? ==> r.value.value == Observe(s, element).value.attributes[name]
    ensures r.Err? ==> r.error == Observe(s, element).error
  {
    match Observe(s, element)
    case Ok(n) => Ok(if name in n.attributes then Some(n.attributes[name]) else None)
    case Err(f) => Err(f)
  }

  /** `lastValue` after an evaluation whose read was `read`: the value read, or the old value if the read raised. */
  function Recorded(last: Option<string>, read: Reading): (r: Option<string>)
    ensures read.Ok? ==> r == read.value
    ensures read.Err? ==> r == last
  {
    match read
    case Ok(v) => v
    case Err(_) => last
  }

  /** `lastValue` after a run of evaluations whose reads were `readings`. */
  function Replay(last: Option<string>, readings: seq<Reading>): Option<string>
    decreases |readings|
  {
    if readings == [] then last else Replay(Recorded(last, readings[0]), readings[1..])
  }

  /** A run in which every read raised leaves `lastValue` untouched. */
  lemma {:induction false} ReplayWithoutReads(last: Option<string>, readings: seq<Reading>)
    requires forall j :: 0 <= j < |readings| ==> readings[j].Err?
    ensures Replay(last, readings) == last
    decreases |readings|
  {
    if readings != [] {
      assert forall j :: 0 <= j < |readings[1..]| ==> readings[1..][j] == readings[j + 1];
      ReplayWithoutReads(Recorded(last, readings[0]), readings[1..]);
    }
  }

  /** After a run, `lastValue` is the value of the last read that did not raise. */
  lemma {:induction false} ReplayKeepsLastRead(last: Option<string>, readings: seq<Reading>, i: nat)
    requires i < |readings| && readings[i].Ok?
    requires forall j :: i < j < |readings| ==> readings[j].Err?
    ensures Replay(last, readings) == readings[i].value
    decreases |readings|
  {
    assert forall j :: 0 <= j < |readings[1..]| ==> readings[1..][j] == readings[j + 1];
    if i == 0 {
      ReplayWithoutReads(readings[0].value, readings[1..]);
    } else {
      ReplayKeepsLastRead(Recorded(last, readings[0]), readings[1..], i - 1);
    }
  }

  /** The answer of `elementTextToBe` and `elementAttributeToBe`: the element
      when the value read equals `expected`, null otherwise (a null read
      never equals); a read that raises escapes. */
  function ReturnIfEquals(element: Handle, expected: string, read: Reading): (r: Eval<Handle>)
    ensures r.Ready? <==> read == Ok(Some(expected))
    ensures r.Ready? ==> r.value == element
    ensures r == NotYet <==> read.Ok? && read.value != Some(expected)
    ensures read.Err? ==> r == Raised(read.error)
  {
    match read
    case Ok(v) => if v == Some(expected) then Ready(element) else NotYet
    case Err(f) => Raised(f)
  }

  // elementTextToBe

  function ElementTextToBeStep(last: Option<string>, element: Handle, text: string, s: Session): (r: Poll<Handle>)
    ensures r.last == Recorded(last, TextOf(s, element))
    ensures r.eval.Ready? <==> TextOf(s, element) == Ok(Some(text))
    ensures r.eval.Ready? ==> r.eval.value == element && r.last == Some(text)
    ensures r.eval == NotYet <==> TextOf(s, element).Ok? && TextOf(s, element).value != Some(text)
    ensures TextOf(s, element).Err? ==> r.eval == Raised(TextOf(s, element).error)
  {
    var read := TextOf(s, element);
    Poll(Recorded(last, read), ReturnIfEquals(element, text, read))
  }

  /** The text reads of one element over a run of polls. */
  function TextReads(element: Handle, polls: seq<Session>): (r: seq<Reading>)
    ensures |r| == |polls|
  {
    seq(|polls|, i requires 0 <= i < |polls| => TextOf(polls[i], element))
  }

  /** `lastValue` of an `elementTextToBe` condition after a run of polls. */
  function ElementTextToBeLast(last: Option<string>, element: Handle, text: string, polls: seq<Session>): Option<string>
    decreases |polls|
  {
    if polls == [] then last
    else ElementTextToBeLast(ElementTextToBeStep(last, element, text, polls[0]).last, element, text, polls[1..])
  }

  /** Over a run of polls, `elementTextToBe` keeps in `lastValue` exactly what
      `Replay` computes from its text reads; with `ReplayKeepsLastRead`, that
      is the text of the last poll whose read did not raise. */
  lemma {:induction false} ElementTextToBeLastIsReplay(last: Option<string>, element: Handle, text: string,
                                                       polls: seq<Session>)
    ensures ElementTextToBeLast(last, element, text, polls) == Replay(last, TextReads(element, polls))
    decreases |polls|
  {
    if polls != [] {
      assert TextReads(element, polls)[1..] == TextReads(element, polls[1..]);
      ElementTextToBeLastIsReplay(ElementTextToBeStep(last, element, text, polls[0]).last, element, text, polls[1..]);
    }
  }

  class ElementTextToBe {
    const element: Handle
    const text: string
    var lastValue: Option<string>

    constructor (element: Handle, text: string)
      ensures this.element == element && this.text == text && lastValue == None
    {
      this.element := element;
      this.text := text;
      lastValue := None;
    }

    method Apply(s: Session) returns (r: Eval<Handle>)
      modifies this
      ensures Poll(lastValue, r) == ElementTextToBeStep(old(lastValue), element, text, s)
    {
      var read := TextOf(s, element);
      if read.Err? {
        return Raised(read.error);
      }
      lastValue := read.value;
      if lastValue == Some(text) {
        r := Ready(element);
      } else {
        r := NotYet;
      }
    }
  }

  // elementAttributeToBe

  function ElementAttributeToBeStep(last: Option<string>, element: Handle, attribute: string, value: string, s: Session)
    : (r: Poll<Handle>)
    ensures r.last == Recorded(last, AttributeOf(s, element, attribute))
    ensures r.eval.Ready? <==> AttributeOf(s, element, attribute) == Ok(Some(value))
    ensures r.eval.Ready? ==> r.eval.value == element && r.last == Some(value)
    ensures r.eval == NotYet <==> AttributeOf(s, element, attribute).Ok? && AttributeOf(s, element, attribute).value != Some(value)
    ensures AttributeOf(s, element, attribute) == Ok(None) ==> r == Poll(None, NotYet)
    ensures AttributeOf(s, element, attribute).Err? ==> r.eval == Raised(AttributeOf(s, element, attribute).error)
  {
    var read := AttributeOf(s, element, attribute);
    Poll(Recorded(last, read), ReturnIfEquals(element, value, read))
  }

  class ElementAttributeToBe {
    const element: Handle
    const attribute: string
    const value: string
    var lastValue: Option<string>

    constructor (element: Handle, attribute: string, value: string)
      ensures this.element == element && this.attribute == attribute && this.value == value
      ensures lastValue == None
    {
      this.element := element;
      this.attribute := attribute;
      this.value := value;
      lastValue := None;
    }

    method Apply(s: Session) returns (r: Eval<Handle>)
      modifies this
      ensures Poll(lastValue, r) == ElementAttributeToBeStep(old(lastValue), element, attribute, value, s)
    {
      var read := AttributeOf(s, element, attribute);
      if read.Err? {
        return Raised(read.error);
      }
      lastValue := read.value;
      if lastValue == Some(value) {
        r := Ready(element);
      } else {
        r := NotYet;
      }
    }
  }

  // elementAttributeToContain

  /** `!Check.isEmpty(v) && v.contains(value)`, for the attribute value v just read. */
  predicate NonEmptyAndContains(v: Option<string>, value: string) {
    v.Some? && v.value != "" && Contains(v.value, value)
  }

  /** One evaluation of `elementAttributeToContain`: it reads the element
      captured at construction (`realElement`) but answers with the handle it
      was given (`element`). */
  function ElementAttributeToContainStep(last: Option<string>, realElement: Handle, element: Handle,
                                         attribute: string, value: string, s: Session): (r: Poll<Handle>)
    ensures r.last == Recorded(last, AttributeOf(s, realElement, attribute))
    ensures r.eval.Ready? <==> AttributeOf(s, realElement, attribute).Ok?
                               && NonEmptyAndContains(AttributeOf(s, realElement, attribute).value, value)
    ensures r.eval.Ready? ==> r.eval.value == element
    ensures r.eval == NotYet <==> AttributeOf(s, realElement, attribute).Ok?
                                  && !NonEmptyAndContains(AttributeOf(s, realElement, attribute).value, value)
    ensures AttributeOf(s, realElement, attribute).Err? ==> r.eval == Raised(AttributeOf(s, realElement, attribute).error)
  {
    var read := AttributeOf(s, realElement, attribute);
    var eval := match read
      case Ok(v) => if NonEmptyAndContains(v, value) then Ready(element) else NotYet
      case Err(f) => Raised(f);
    Poll(Recorded(last, read), eval)
  }

  /** A null or empty attribute never matches, whatever the target, the
      empty target included. */
  lemma AttributeToContainNeverMatchesEmpty(last: Option<string>, realElement: Handle, element: Handle,
                                            attribute: string, value: string, s: Session)
    requires AttributeOf(s, realElement, attribute) == Ok(None) || AttributeOf(s, realElement, attribute) == Ok(Some(""))
    ensures ElementAttributeToContainStep(last, realElement, element, attribute, value, s).eval == NotYet
  {
  }

  /** With the empty target, `elementAttributeToContain` succeeds exactly when
      the attribute is present and non-empty. */
  lemma AttributeToContainEmptyTarget(last: Option<string>, realElement: Handle, element: Handle,
                                      attribute: string, s: Session)
    ensures ElementAttributeToContainStep(last, realElement, element, attribute, "", s).eval.Ready?
            <==> AttributeOf(s, realElement, attribute).Ok? && AttributeOf(s, realElement, attribute).value.Some?
                 && AttributeOf(s, realElement, attribute).value.value != ""
  {
    var read := AttributeOf(s, realElement, attribute);
    if read.Ok? && read.value.Some? {
      ContainsEmpty(read.value.value);
    }
  }

  class ElementAttributeToContain {
    const realElement: Handle
    const element: Handle
    const attribute: string
    const value: string
    var lastValue: Option<string>

    /** Built with the element captured by `Conditions.CaptureIfRefreshable`. */
    constructor (realElement: Handle, element: Handle, attribute: string, value: string)
      ensures this.realElement == realElement && this.element == element
      ensures this.attribute == attribute && this.value == value && lastValue == None
    {
      this.realElement := realElement;
      this.element := element;
      this.attribute := attribute;
      this.value := value;
      lastValue := None;
    }

    method Apply(s: Session) returns (r: Eval<Handle>)
      modifies this
      ensures Poll(lastValue, r) == ElementAttributeToContainStep(old(lastValue), realElement, element, attribute, value, s)
    {
      var read := AttributeOf(s, realElement, attribute);
      if read.Err? {
        return Raised(read.error);
      }
      lastValue := read.value;
      if lastValue.Some? && lastValue.value != "" && Contains(lastValue.value, value) {
        r := Ready(element);
      } else {
        r := NotYet;
      }
    }
  }

  /** `elementAttributeToContain(element, attribute, value)`, built in session s0. */
  method NewElementAttributeToContain(element: Handle, attribute: string, value: string, s0: Session)
    returns (r: Result<ElementAttributeToContain, Fault>)
    ensures r.Err? <==> Conditions.CaptureIfRefreshable(element, s0).Err?
    ensures r.Err? ==> r.error == Conditions.CaptureIfRefreshable(element, s0).error
    ensures r.Ok? ==> fresh(r.value) && r.value.lastValue == None
                      && r.value.realElement == Conditions.CaptureIfRefreshable(element, s0).value
                      && r.value.element == element && r.value.attribute == attribute && r.value.value == value
  {
    match Conditions.CaptureIfRefreshable(element, s0)
    case Ok(watched) =>
      var c := new ElementAttributeToContain(watched, element, attribute, value);
      r := Ok(c);
    case Err(f) =>
      r := Err(f);
  }

  // textToEqualInElement

  /** The search context `textToEqualInElement` uses: the driver itself when none (null) is given. */
  function SearchRoot(searchContext: Option<Context>): (r: Context)
    ensures searchContext.None? ==> r == Page
    ensures searchContext.Some? ==> r == searchContext.value
  {
    if searchContext.Some? then searchContext.value else Page
  }

  /** `realContext.findElement(locator).getText()`. */
  function TextOfLocated(s: Session, context: Context, locator: Locator): (r: Reading)
    ensures FindElement(s, context, locator).Err? ==> r == Err(FindElement(s, context, locator).error)
    ensures FindElement(s, context, locator).Ok? ==> r == TextOf(s, FindElement(s, context, locator).value)
  {
    match FindElement(s, context, locator)
    case Ok(h) => TextOf(s, h)
    case Err(f) => Err(f)
  }

  function TextToEqualInElementStep(last: Option<string>, searchContext: Option<Context>, locator: Locator,
                                    text: string, s: Session): (r: Poll<bool>)
    ensures r.last == Recorded(last, TextOfLocated(s, SearchRoot(searchContext), locator))
    ensures r.eval == Ready(true) <==> TextOfLocated(s, SearchRoot(searchContext), locator) == Ok(Some(text))
    ensures r.eval == Ready(true) ==> r.last == Some(text)
    ensures r.eval == NotYet <==> TextOfLocated(s, SearchRoot(searchContext), locator) == Err(StaleElementReference)
    ensures r.eval.Raised? <==> TextOfLocated(s, SearchRoot(searchContext), locator).Err?
                                && TextOfLocated(s, SearchRoot(searchContext), locator).error != StaleElementReference
    ensures r.eval.Raised? ==> r.eval.fault == TextOfLocated(s, SearchRoot(searchContext), locator).error
  {
    var read := TextOfLocated(s, SearchRoot(searchContext), locator);
    var eval := match read
      case Ok(v) => Ready(v == Some(text))
      case Err(f) => if f == StaleElementReference then NotYet else Raised(f);
    Poll(Recorded(last, read), eval)
  }

  /** A null search context behaves exactly as the driver given explicitly. */
  lemma TextToEqualInElementNullContext(last: Option<string>, locator: Locator, text: string, s: Session)
    ensures TextToEqualInElementStep(last, None, locator, text, s) == TextToEqualInElementStep(last, Some(Page), locator, text, s)
  {
  }

  class TextToEqualInElement {
    const searchContext: Option<Context>
    const locator: Locator
    const text: string
    var lastValue: Option<string>

    constructor (searchContext: Option<Context>, locator: Locator, text: string)
      ensures this.searchContext == searchContext && this.locator == locator && this.text == text
      ensures lastValue == None
    {
      this.searchContext := searchContext;
      this.locator := locator;
      this.text := text;
      lastValue := None;
    }

    method Apply(s: Session) returns (r: Eval<bool>)
      modifies this
      ensures Poll(lastValue, r) == TextToEqualInElementStep(old(lastValue), searchContext, locator, text, s)
    {
      var realContext := Page;
      if searchContext.Some? {
        realContext := searchContext.value;
      }
      var read := TextOfLocated(s, realContext, locator);
      match read
      case Err(f) =>
        r := if f == StaleElementReference then NotYet else Raised(f);
      case Ok(v) =>
        lastValue := v;
        r := Ready(v == Some(text));
    }
  }

  // textToBePresentInElement

  function TextToBePresentInElementStep(last: Option<string>, element: Handle, text: string, s: Session): (r: Poll<bool>)
    ensures r.last == Recorded(last, TextOf(s, element))
    ensures r.eval == Ready(true) <==> TextOf(s, element).Ok? && Contains(TextOf(s, element).value.value, text)
    ensures r.eval == Ready(true) ==> r.last.Some? && Contains(r.last.value, text)
    ensures r.eval == NotYet <==> IsStale(s, element)
    ensures r.eval.Raised? <==> TextOf(s, element).Err? && TextOf(s, element).error != StaleElementReference
    ensures r.eval.Raised? ==> r.eval.fault == TextOf(s, element).error
  {
    var read := TextOf(s, element);
    var eval := match read
      case Ok(v) => Ready(Contains(v.value, text))
      case Err(f) => if f == StaleElementReference then NotYet else Raised(f);
    Poll(Recorded(last, read), eval)
  }

  class TextToBePresentInElement {
    const element: Handle
    const text: string
    var lastValue: Option<string>

    constructor (element: Handle, text: string)
      ensures this.element == element && this.text == text && lastValue == None
    {
      this.element := element;
      this.text := text;
      lastValue := None;
    }

    method Apply(s: Session) returns (r: Eval<bool>)
      modifies this
      ensures Poll(lastValue, r) == TextToBePresentInElementStep(old(lastValue), element, text, s)
    {
      var read := TextOf(s, element);
      match read
      case Err(f) =>
        r := if f == StaleElementReference then NotYet else Raised(f);
      case Ok(v) =>
        lastValue := v;
        r := Ready(Contains(v.value, text));
    }
  }
}
