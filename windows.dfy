/** `newWindowOpenedAndSwitchedTo`: the window handles listed when the
    condition is built are its baseline; each evaluation answers with the
    first listed handle that is not in the baseline, and switches to it. */
module Windows {
  import opened Browser

  /** The set of handles in a listing. */
  function Elements(handles: seq<string>): set<string> {
    set h | h in handles
  }

  /** The position of the first handle at or after `from` that is not in the baseline. */
  function FirstNew(handles: seq<string>, baseline: set<string>, from: nat): (r: Option<nat>)
    requires from <= |handles|
    ensures r.Some? ==> from <= r.value < |handles| && handles[r.value] !in baseline
    ensures r.Some? ==> forall j :: from <= j < r.value ==> handles[j] in baseline
    ensures r.None? ==> forall j :: from <= j < |handles| ==> handles[j] in baseline
    decreases |handles| - from
  {
    if from == |handles| then None
    else if handles[from] !in baseline then Some(from)
    else FirstNew(handles, baseline, from + 1)
  }

  /** One evaluation: null when the listing, as a set, is the baseline;
      otherwise the first new handle in listing order, which is also the
      window switched to, or null when no handle is new (windows only closed). */
  function NewWindowOpenedAndSwitchedTo(baseline: set<string>, s: Session): (r: Eval<string>)
    ensures s.failure.Some? ==> r == Raised(WebDriverError(s.failure.value))
    ensures s.failure.None? && Elements(s.windows) == baseline ==> r == NotYet
    ensures r.Ready? ==> exists i :: 0 <= i < |s.windows| && s.windows[i] == r.value
                                     && r.value !in baseline
                                     && forall j :: 0 <= j < i ==> s.windows[j] in baseline
  {
    if s.failure.Some? then Raised(WebDriverError(s.failure.value))
    else if Elements(s.windows) == baseline then NotYet
    else match FirstNew(s.windows, baseline, 0)
      case Some(i) => Ready(s.windows[i])
      case None => NotYet
  }

  /** The set comparison never changes the answer: the evaluation is null
      exactly when no listed handle is new, and otherwise it is the first new one. */
  lemma {:induction false} NewWindowIsFirstNewHandle(baseline: set<string>, s: Session)
    requires s.failure.None?
    ensures NewWindowOpenedAndSwitchedTo(baseline, s) == NotYet <==> forall w :: w in s.windows ==> w in baseline
    ensures NewWindowOpenedAndSwitchedTo(baseline, s)
            == match FirstNew(s.windows, baseline, 0)
               case Some(i) => Ready(s.windows[i])
               case None => NotYet
  {
    if Elements(s.windows) == baseline {
      forall j | 0 <= j < |s.windows|
        ensures s.windows[j] in baseline
      {
        assert s.windows[j] in Elements(s.windows);
      }
    }
    var first := FirstNew(s.windows, baseline, 0);
    if first.Some? {
      assert s.windows[first.value] in s.windows;
    } else {
      forall w | w in s.windows
        ensures w in baseline
      {
        var j :| 0 <= j < |s.windows| && s.windows[j] == w;
      }
    }
  }

  /** Baseline {A}: the listing [A, B] yields B; when two windows appear in
      one step the first listed wins; a listing in which A closed and nothing
      opened yields null. */
  lemma NewWindowExamples(s: Session)
    requires s.failure.None?
    ensures NewWindowOpenedAndSwitchedTo({"A"}, s.(windows := ["A", "B"])) == Ready("B")
    ensures NewWindowOpenedAndSwitchedTo({"A"}, s.(windows := ["A", "B", "C"])) == Ready("B")
    ensures NewWindowOpenedAndSwitchedTo({"A"}, s.(windows := ["C", "A", "B"])) == Ready("C")
    ensures NewWindowOpenedAndSwitchedTo({"A"}, s.(windows := [])) == NotYet
    ensures NewWindowOpenedAndSwitchedTo({"A", "B"}, s.(windows := ["B"])) == NotYet
  {
    assert Elements(["A", "B"]) != {"A"} by { assert "B" in Elements(["A", "B"]); }
    assert Elements(["A", "B", "C"]) != {"A"} by { assert "B" in Elements(["A", "B", "C"]); }
    assert Elements(["C", "A", "B"]) != {"A"} by { assert "C" in Elements(["C", "A", "B"]); }
    assert Elements([]) != {"A"} by { assert "A" !in Elements([]); }
    assert Elements(["B"]) != {"A", "B"} by { assert "A" !in Elements(["B"]); }
  }

  class NewWindowCondition {
    /** The handles listed when the condition was built. */
    const previousHandles: set<string>

    constructor (baseline: seq<string>)
      ensures previousHandles == Elements(baseline)
    {
      previousHandles := Elements(baseline);
    }

    /** `apply`: list the windows and scan them, in order, for one not in the baseline. */
    method Apply(s: Session) returns (r: Eval<string>)
      ensures r == NewWindowOpenedAndSwitchedTo(previousHandles, s)
    {
      if s.failure.Some? {
        return Raised(WebDriverError(s.failure.value));
      }
      var currentHandles := s.windows;
      if Elements(currentHandles) != previousHandles {
        var i := 0;
        while i < |currentHandles|
          invariant 0 <= i <= |currentHandles|
          invariant FirstNew(currentHandles, previousHandles, 0) == FirstNew(currentHandles, previousHandles, i)
        {
          if currentHandles[i] !in previousHandles {
            return Ready(currentHandles[i]);
          }
          i := i + 1;
        }
      }
      r := NotYet;
    }
  }

  /** `newWindowOpenedAndSwitchedTo(driver)`, built in session s0: the window
      listing taken at construction raises like any remote call. */
  method NewWindowOpened(s0: Session) returns (r: Result<NewWindowCondition, Fault>)
    ensures s0.failure.Some? ==> r == Err(WebDriverError(s0.failure.value))
    ensures s0.failure.None? ==> r.Ok? && fresh(r.value) && r.value.previousHandles == Elements(s0.windows)
  {
    if s0.failure.Some? {
      return Err(WebDriverError(s0.failure.value));
    }
    var c := new NewWindowCondition(s0.windows);
    r := Ok(c);
  }
}
