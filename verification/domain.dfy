/** The aggregate component list (`FluentListImpl`): an ordered, mutable list of components
    with positional access, bulk actions that skip disabled members, positional text
    assignment, fan-out search and per-member projections. */
module Domain {
  import opened Wrappers
  import opened Selenium

  // ---------------------------------------------------------------------------
  // Members and what can be asked of them
  // ---------------------------------------------------------------------------

  /** A post-filter applied to search results. */
  datatype Filter = Filter(attribute: string, value: string)

  /** A driver locator (`By`). */
  datatype By = By(mechanism: string, value: string)

  /** The three shapes of a nested search: `find(selector, filters)`, `find(locator, filters)`
      and `find(filters)`. */
  datatype Query =
    | BySelector(selector: string, filters: seq<Filter>)
    | ByLocator(locator: By, filters: seq<Filter>)
    | ByFilters(filters: seq<Filter>)

  /** The string properties a member exposes, one per singular/plural getter pair. */
  datatype Property = Value | Id | Attribute(name: string) | Name | TagName | TextContent | Text

  /** One member of a list: a component wrapping `element`, with the element's state as the
      driver reports it and the results its own nested searches return. */
  datatype Member = Member(
    componentClass: ClassName,
    element: Handle,
    enabled: bool,
    displayed: bool,
    properties: map<Property, string>,
    searches: map<Query, seq<Member>>)

  /** The member's getter for `p`; `None` is a null string. */
  function Get(m: Member, p: Property): Option<string>
  {
    if p in m.properties then Some(m.properties[p]) else None
  }

  /** The member's own `find`: the components its nested search matches, in match order. */
  function Search(m: Member, q: Query): seq<Member>
  {
    if q in m.searches then m.searches[q] else []
  }

  predicate IsEnabled(m: Member) { m.enabled }

  predicate IsDisplayed(m: Member) { m.displayed }

  /** The class `fromElements` builds its members as. */
  const FluentWebElementClass: ClassName := "org.fluentlenium.core.domain.FluentWebElement"

  /** The side effects a list operation has on its members. */
  datatype Kind = Click | Submit | Clear
  datatype Action = Act(kind: Kind, target: Member) | SetText(target: Member, value: string)

  predicate TargetEnabled(a: Action) { a.target.enabled }

  /** The `NoSuchElementException`s the list raises. */
  datatype ListError =
    | ElementNotFound                                // empty list
    | NoDisplayedAndEnabled                          // text(...) found nothing to write to
    | NoSuchPosition(position: int, available: nat)  // indexed find beyond the matches

  /** The driver's record of what was done to which element, in order. */
  class ActionLog {
    var actions: seq<Action>

    constructor ()
      ensures actions == []
    {
      actions := [];
    }
  }

  // ---------------------------------------------------------------------------
  // Filtering, in order
  // ---------------------------------------------------------------------------

  /** The elements of `s` that satisfy `p`, in their order in `s`. */
  function Select<T>(s: seq<T>, p: T -> bool): (r: seq<T>)
    ensures |r| <= |s|
    ensures forall i :: 0 <= i < |r| ==> p(r[i])
    decreases |s|
  {
    if s == [] then [] else Select(s[..|s| - 1], p) + (if p(s[|s| - 1]) then [s[|s| - 1]] else [])
  }

  /** Filtering keeps order: it distributes over concatenation. */
  lemma {:induction false} SelectConcat<T>(a: seq<T>, b: seq<T>, p: T -> bool)
    ensures Select(a + b, p) == Select(a, p) + Select(b, p)
    decreases |b|
  {
    if b == [] {
      assert a + b == a;
    } else {
      var b' := b[..|b| - 1];
      assert (a + b)[..|a + b| - 1] == a + b';
      SelectConcat(a, b', p);
    }
  }

  /** Filtering keeps each satisfying element exactly as often as it occurs, and no other. */
  lemma {:induction false} SelectCount<T>(s: seq<T>, p: T -> bool, x: T)
    ensures multiset(Select(s, p))[x] == if p(x) then multiset(s)[x] else 0
    decreases |s|
  {
    if s != [] {
      SelectCount(s[..|s| - 1], p, x);
      assert s == s[..|s| - 1] + [s[|s| - 1]];
    }
  }

  /** Filtering leaves nothing exactly when nothing satisfies the predicate. */
  lemma {:induction false} SelectEmpty<T>(s: seq<T>, p: T -> bool)
    ensures Select(s, p) == [] <==> forall i :: 0 <= i < |s| ==> !p(s[i])
    decreases |s|
  {
    if s != [] {
      SelectEmpty(s[..|s| - 1], p);
      assert forall i :: 0 <= i < |s| - 1 ==> s[..|s| - 1][i] == s[i];
    }
  }

  /** Filtering keeps everything when everything satisfies the predicate. */
  lemma {:induction false} SelectAll<T>(s: seq<T>, p: T -> bool)
    requires forall i :: 0 <= i < |s| ==> p(s[i])
    ensures Select(s, p) == s
    decreases |s|
  {
    if s != [] {
      SelectAll(s[..|s| - 1], p);
      assert s[..|s| - 1] + [s[|s| - 1]] == s;
    }
  }

  // ---------------------------------------------------------------------------
  // What the bulk operations do
  // ---------------------------------------------------------------------------

  /** One action of `kind` on each of `targets`, in order. */
  function Acts(kind: Kind, targets: seq<Member>): (r: seq<Action>)
    ensures |r| == |targets|
    ensures forall i :: 0 <= i < |r| ==> r[i] == Act(kind, targets[i])
  {
    seq(|targets|, i requires 0 <= i < |targets| => Act(kind, targets[i]))
  }

  /** Acting on one more target appends one action. */
  lemma ActsAppend(kind: Kind, targets: seq<Member>, m: Member)
    ensures Acts(kind, targets + [m]) == Acts(kind, targets) + [Act(kind, m)]
  {
    var l, r := Acts(kind, targets + [m]), Acts(kind, targets) + [Act(kind, m)];
    assert |l| == |r|;
    forall i | 0 <= i < |l| ensures l[i] == r[i] {
      if i < |targets| {
        assert (targets + [m])[i] == targets[i];
      }
    }
  }

  /** The value the k-th displayed member receives: the k-th value, or the last one once
      the values are exhausted. */
  function Sticky(values: seq<string>, k: nat): string
    requires |values| > 0
  {
    values[if k < |values| then k else |values| - 1]
  }

  /** The writes `text(values)` performs, following its walk over the list: a displayed
      member takes the next value slot (counting displayed members before it) and is
      written only when it is also enabled. */
  function TextWrites(ms: seq<Member>, values: seq<string>): seq<Action>
    requires |values| > 0
    decreases |ms|
  {
    if ms == [] then []
    else
      var before, m := ms[..|ms| - 1], ms[|ms| - 1];
      TextWrites(before, values)
        + if m.displayed && m.enabled then [SetText(m, Sticky(values, |Select(before, IsDisplayed)|))] else []
  }

  /** The assignment of values to displayed members: the k-th one gets `Sticky(values, k)`. */
  function Assignments(displayed: seq<Member>, values: seq<string>): (r: seq<Action>)
    requires |values| > 0
    ensures |r| == |displayed|
    ensures forall k :: 0 <= k < |r| ==> r[k] == SetText(displayed[k], Sticky(values, k))
  {
    seq(|displayed|, k requires 0 <= k < |displayed| => SetText(displayed[k], Sticky(values, k)))
  }

  /** `text(values)` writes exactly this: number the displayed members 0, 1, …; the k-th
      is assigned `values[min(k, |values| - 1)]`, and of these assignments exactly those
      to enabled members are performed, in list order. Non-displayed members neither take
      a slot nor are written; displayed but disabled members take a slot. */
  lemma {:induction false} TextWritesAreStickyAssignments(ms: seq<Member>, values: seq<string>)
    requires |values| > 0
    ensures TextWrites(ms, values) == Select(Assignments(Select(ms, IsDisplayed), values), TargetEnabled)
    decreases |ms|
  {
    if ms != [] {
      var before, m := ms[..|ms| - 1], ms[|ms| - 1];
      var d := Select(before, IsDisplayed);
      TextWritesAreStickyAssignments(before, values);
      if m.displayed {
        assert Select(ms, IsDisplayed) == d + [m];
        var a := SetText(m, Sticky(values, |d|));
        assert Assignments(d + [m], values) == Assignments(d, values) + [a];
        SelectConcat(Assignments(d, values), [a], TargetEnabled);
        assert [a][..0] == [];
        assert Select([a], TargetEnabled) == if m.enabled then [a] else [];
      } else {
        assert Select(ms, IsDisplayed) == d;
      }
    }
  }

  /** When every member is displayed and enabled, member k is written
      `values[min(k, |values| - 1)]`: `text("a", "b")` over three members writes "a", "b", "b". */
  lemma TextWritesWhenAllEligible(ms: seq<Member>, values: seq<string>)
    requires |values| > 0
    requires forall i :: 0 <= i < |ms| ==> ms[i].displayed && ms[i].enabled
    ensures TextWrites(ms, values) == Assignments(ms, values)
  {
    TextWritesAreStickyAssignments(ms, values);
    SelectAll(ms, IsDisplayed);
    SelectAll(Assignments(ms, values), TargetEnabled);
  }

  /** `text(values)` writes nothing exactly when no member is both displayed and enabled. */
  lemma {:induction false} TextWritesNone(ms: seq<Member>, values: seq<string>)
    requires |values| > 0
    ensures TextWrites(ms, values) == [] <==> forall i :: 0 <= i < |ms| ==> !(ms[i].displayed && ms[i].enabled)
    decreases |ms|
  {
    if ms != [] {
      TextWritesNone(ms[..|ms| - 1], values);
      assert forall i :: 0 <= i < |ms| - 1 ==> ms[..|ms| - 1][i] == ms[i];
    }
  }

  /** The concatenation of every member's own search results, in member order. */
  function FindAll(ms: seq<Member>, q: Query): seq<Member>
    decreases |ms|
  {
    if ms == [] then [] else FindAll(ms[..|ms| - 1], q) + Search(ms[|ms| - 1], q)
  }

  /** Fan-out search keeps member order then match order: it distributes over concatenation. */
  lemma {:induction false} FindAllConcat(a: seq<Member>, b: seq<Member>, q: Query)
    ensures FindAll(a + b, q) == FindAll(a, q) + FindAll(b, q)
    decreases |b|
  {
    if b == [] {
      assert a + b == a;
    } else {
      var b' := b[..|b| - 1];
      assert (a + b)[..|a + b| - 1] == a + b';
      FindAllConcat(a, b', q);
    }
  }

  /** The first member's matches come first, followed by the fan-out over the rest. */
  lemma FindAllFirstMember(ms: seq<Member>, q: Query)
    requires |ms| > 0
    ensures FindAll(ms, q) == Search(ms[0], q) + FindAll(ms[1..], q)
  {
    assert ms == [ms[0]] + ms[1..];
    FindAllConcat([ms[0]], ms[1..], q);
    assert FindAll([ms[0]], q) == FindAll([], q) + Search(ms[0], q);
  }

  /** The number of matches: the sum of the members' own match counts. */
  function MatchCount(ms: seq<Member>, q: Query): nat
    decreases |ms|
  {
    if ms == [] then 0 else MatchCount(ms[..|ms| - 1], q) + |Search(ms[|ms| - 1], q)|
  }

  /** The fan-out search finds exactly `MatchCount` members. */
  lemma {:induction false} FindAllLength(ms: seq<Member>, q: Query)
    ensures |FindAll(ms, q)| == MatchCount(ms, q)
    decreases |ms|
  {
    if ms != [] {
      FindAllLength(ms[..|ms| - 1], q);
    }
  }

  /** Fan-out example: member A matching a0, a1 and member B matching b0 give [a0, a1, b0]. */
  lemma FindAllExample(a: Member, b: Member, q: Query, a0: Member, a1: Member, b0: Member)
    requires Search(a, q) == [a0, a1] && Search(b, q) == [b0]
    ensures FindAll([a, b], q) == [a0, a1, b0]
  {
    assert [a, b][..1] == [a];
    assert [a][..0] == [];
    assert FindAll([a], q) == [a0, a1];
    assert FindAll([a, b], q) == FindAll([a], q) + [b0];
  }

  /** The same element, re-typed as a component of class `cls`. */
  function Retype(m: Member, cls: ClassName): (r: Member)
    ensures r.element == m.element && r.componentClass == cls
    ensures r.enabled == m.enabled && r.displayed == m.displayed
  {
    m.(componentClass := cls)
  }

  // ---------------------------------------------------------------------------
  // The list object
  // ---------------------------------------------------------------------------

  class FluentListImpl {
    var members: seq<Member>
    const componentClass: Option<ClassName>
    const instantiator: Option<Instantiator<Member>>

    constructor (componentClass: Option<ClassName>, instantiator: Option<Instantiator<Member>>, members: seq<Member>)
      ensures this.componentClass == componentClass && this.instantiator == instantiator
      ensures this.members == members
    {
      this.componentClass := componentClass;
      this.instantiator := instantiator;
      this.members := members;
    }

    /** `fromElements`: wrap each element as a `FluentWebElement` with `instantiator`, in order;
        the first failure of the instantiator propagates. */
    static method FromElements(instantiator: Instantiator<Member>, elements: seq<Handle>)
      returns (r: Result<FluentListImpl, string>)
      ensures r.Success? <==> forall i :: 0 <= i < |elements| ==> instantiator(FluentWebElementClass, elements[i]).Success?
      ensures r.Success? ==>
                && fresh(r.value)
                && r.value.componentClass == Some(FluentWebElementClass)
                && r.value.instantiator == Some(instantiator)
                && |r.value.members| == |elements|
                && forall i :: 0 <= i < |elements| ==>
                     r.value.members[i] == instantiator(FluentWebElementClass, elements[i]).value
      ensures r.Failure? ==>
                exists i :: && 0 <= i < |elements|
                            && instantiator(FluentWebElementClass, elements[i]) == Failure(r.error)
                            && forall j :: 0 <= j < i ==> instantiator(FluentWebElementClass, elements[j]).Success?
    {
      var built: seq<Member> := [];
      var i := 0;
      while i < |elements|
        invariant 0 <= i <= |elements|
        invariant |built| == i
        invariant forall j :: 0 <= j < i ==> instantiator(FluentWebElementClass, elements[j]).Success?
        invariant forall j :: 0 <= j < i ==> built[j] == instantiator(FluentWebElementClass, elements[j]).value
      {
        var c := instantiator(FluentWebElementClass, elements[i]);
        if c.Failure? {
          return Failure(c.error);
        }
        built := built + [c.value];
        i := i + 1;
      }
      var list := new FluentListImpl(Some(FluentWebElementClass), Some(instantiator), built);
      r := Success(list);
    }

    /** `toElements`: the underlying element of each member, in order. */
    method ToElements() returns (elements: seq<Handle>)
      ensures |elements| == |members|
      ensures forall i :: 0 <= i < |members| ==> elements[i] == members[i].element
    {
      elements := [];
      var i := 0;
      while i < |members|
        invariant 0 <= i <= |members|
        invariant |elements| == i
        invariant forall j :: 0 <= j < i ==> elements[j] == members[j].element
      {
        elements := elements + [members[i].element];
        i := i + 1;
      }
    }

    /** `first()`: member 0, or `NoSuchElementException` on an empty list. */
    function First(): (r: Result<Member, ListError>)
      reads this
      ensures r.Failure? <==> |members| == 0
      ensures r.Failure? ==> r.error == ElementNotFound
      ensures r.Success? ==> r.value == members[0]
    {
      if |members| == 0 then Failure(ElementNotFound) else Success(members[0])
    }

    /** `last()`: the final member, or `NoSuchElementException` on an empty list. */
    function Last(): (r: Result<Member, ListError>)
      reads this
      ensures r.Failure? <==> |members| == 0
      ensures r.Failure? ==> r.error == ElementNotFound
      ensures r.Success? ==> r.value == members[|members| - 1]
    {
      if |members| == 0 then Failure(ElementNotFound) else Success(members[|members| - 1])
    }

    /** `index(n)`: member `n`, or `NoSuchElementException` when `n` is not below the size. */
    function Index(n: int): (r: Result<Member, ListError>)
      requires n >= 0
      reads this
      ensures r.Failure? <==> n >= |members|
      ensures r.Failure? ==> r.error == ElementNotFound
      ensures r.Success? ==> r.value == members[n]
    {
      if |members| <= n then Failure(ElementNotFound) else Success(members[n])
    }

    /** The loop shared by `click`, `submit` and `clearAll`: fail on an empty list before
        touching anything, otherwise act once on each enabled member, in list order. */
    method ActOnEnabled(kind: Kind, log: ActionLog) returns (r: Outcome<ListError>)
      modifies log
      ensures r == if |members| == 0 then Fail(ElementNotFound) else Pass
      ensures log.actions == old(log.actions) + if r.Pass? then Acts(kind, Select(members, IsEnabled)) else []
    {
      if |members| == 0 {
        return Fail(ElementNotFound);
      }
      var i := 0;
      while i < |members|
        invariant 0 <= i <= |members|
        invariant log.actions == old(log.actions) + Acts(kind, Select(members[..i], IsEnabled))
      {
        ghost var done := Select(members[..i], IsEnabled);
        assert members[..i + 1][..i] == members[..i];
        assert Select(members[..i + 1], IsEnabled) == done + if members[i].enabled then [members[i]] else [];
        if members[i].enabled {
          ActsAppend(kind, done, members[i]);
          log.actions := log.actions + [Act(kind, members[i])];
        } else {
          assert done + [] == done;
        }
        i := i + 1;
      }
      assert members[..i] == members;
      r := Pass;
    }

    /** `click()`: click each enabled member once, in order; the list is not changed. */
    method Click(log: ActionLog) returns (r: Outcome<ListError>)
      modifies log
      ensures r == if |members| == 0 then Fail(ElementNotFound) else Pass
      ensures log.actions == old(log.actions) + if r.Pass? then Acts(Kind.Click, Select(members, IsEnabled)) else []
    {
      r := ActOnEnabled(Kind.Click, log);
    }

    /** `submit()`: submit each enabled member once, in order. */
    method Submit(log: ActionLog) returns (r: Outcome<ListError>)
      modifies log
      ensures r == if |members| == 0 then Fail(ElementNotFound) else Pass
      ensures log.actions == old(log.actions) + if r.Pass? then Acts(Kind.Submit, Select(members, IsEnabled)) else []
    {
      r := ActOnEnabled(Kind.Submit, log);
    }

    /** `clearAll()`: clear each enabled member once, in order. */
    method ClearAll(log: ActionLog) returns (r: Outcome<ListError>)
      modifies log
      ensures r == if |members| == 0 then Fail(ElementNotFound) else Pass
      ensures log.actions == old(log.actions) + if r.Pass? then Acts(Kind.Clear, Select(members, IsEnabled)) else []
    {
      r := ActOnEnabled(Kind.Clear, log);
    }

    /** `clear()`: the same as `clearAll()`. */
    method Clear(log: ActionLog) returns (r: Outcome<ListError>)
      modifies log
      ensures r == if |members| == 0 then Fail(ElementNotFound) else Pass
      ensures log.actions == old(log.actions) + if r.Pass? then Acts(Kind.Clear, Select(members, IsEnabled)) else []
    {
      r := ClearAll(log);
    }

    /** `clearList()`: empty the list itself; no member is acted on. */
    method ClearList()
      modifies this
      ensures members == []
    {
      members := [];
    }

    /** `text(values)`: fail on an empty list whatever `values` is; with no values write
        nothing; otherwise assign values to displayed members with the last value sticking
        (see `TextWritesAreStickyAssignments`), and fail when no member was both displayed
        and enabled, in which case nothing was written. */
    method Text(values: seq<string>, log: ActionLog) returns (r: Outcome<ListError>)
      modifies log
      ensures r == if |members| == 0 then Fail(ElementNotFound)
                   else if |values| > 0 && forall i :: 0 <= i < |members| ==> !(members[i].displayed && members[i].enabled)
                   then Fail(NoDisplayedAndEnabled)
                   else Pass
      ensures log.actions == old(log.actions) + if r.Pass? && |values| > 0 then TextWrites(members, values) else []
    {
      if |members| == 0 {
        return Fail(ElementNotFound);
      }
      if |values| > 0 {
        var atMostOne := false;
        var id := 0;
        var i := 0;
        while i < |members|
          invariant 0 <= i <= |members|
          invariant id == if |Select(members[..i], IsDisplayed)| < |values| then |Select(members[..i], IsDisplayed)| else |values|
          invariant log.actions == old(log.actions) + TextWrites(members[..i], values)
          invariant atMostOne <==> exists j :: 0 <= j < i && members[j].displayed && members[j].enabled
        {
          var m := members[i];
          assert members[..i + 1][..i] == members[..i];
          if m.displayed {
            var value;
            if |values| > id {
              value := values[id];
              id := id + 1;
            } else {
              value := values[|values| - 1];
            }
            if m.enabled {
              atMostOne := true;
              log.actions := log.actions + [SetText(m, value)];
            }
          }
          i := i + 1;
        }
        assert members[..i] == members;
        if !atMostOne {
          TextWritesNone(members, values);
          return Fail(NoDisplayedAndEnabled);
        }
      }
      r := Pass;
    }

    /** `getValues()`, `getIds()`, `getAttributes(name)`, `getNames()`, `getTagNames()`,
        `getTextContents()`, `getTexts()`: member i's property, for every i, in order. */
    function GetAll(p: Property): (r: seq<Option<string>>)
      reads this
      ensures |r| == |members|
      ensures forall i :: 0 <= i < |members| ==> r[i] == Get(members[i], p)
    {
      seq(|members|, i requires 0 <= i < |members| reads this => Get(members[i], p))
    }

    /** `getValue()`, `getId()`, `getAttribute(name)`, `getName()`, `getTagName()`,
        `getTextContent()`, `getText()`: member 0's property, or null on an empty list. */
    function GetFirst(p: Property): (r: Option<string>)
      reads this
      ensures |members| == 0 ==> r == None
      ensures |members| > 0 ==> r == Get(members[0], p)
    {
      if |members| > 0 then Get(members[0], p) else None
    }

    /** `find(selector | locator | filters)`: a new list of the concatenated nested results,
        with the same component class and instantiator; this list is not changed. */
    method Find(q: Query) returns (r: FluentListImpl)
      ensures fresh(r)
      ensures r.members == FindAll(members, q)
      ensures r.componentClass == componentClass && r.instantiator == instantiator
    {
      var finds: seq<Member> := [];
      var i := 0;
      while i < |members|
        invariant 0 <= i <= |members|
        invariant finds == FindAll(members[..i], q)
      {
        assert members[..i + 1][..i] == members[..i];
        finds := finds + Search(members[i], q);
        i := i + 1;
      }
      assert members[..i] == members;
      r := new FluentListImpl(componentClass, instantiator, finds);
    }

    /** Indexed `find(…, n)`: match `n` of the fan-out search, or `NoSuchElementException`
        reporting `n` and the number of matches when there are not more than `n`. */
    method FindAt(q: Query, n: int) returns (r: Result<Member, ListError>)
      requires n >= 0
      ensures n >= MatchCount(members, q) ==> r == Failure(NoSuchPosition(n, MatchCount(members, q)))
      ensures n < |FindAll(members, q)| ==> r == Success(FindAll(members, q)[n])
    {
      FindAllLength(members, q);
      var found := Find(q);
      if n >= |found.members| {
        return Failure(NoSuchPosition(n, |found.members|));
      }
      r := Success(found.members[n]);
    }

    /** `findFirst(…)`: indexed find at position 0. */
    method FindFirst(q: Query) returns (r: Result<Member, ListError>)
      ensures FindAll(members, q) == [] ==> r == Failure(NoSuchPosition(0, 0))
      ensures FindAll(members, q) != [] ==> r == Success(FindAll(members, q)[0])
    {
      FindAllLength(members, q);
      r := FindAt(q, 0);
    }

    /** `as(cls)`: a new list of class `cls` whose member i wraps member i's element,
        with this list's instantiator. */
    method As(cls: ClassName) returns (r: FluentListImpl)
      ensures fresh(r)
      ensures r.componentClass == Some(cls) && r.instantiator == instantiator
      ensures |r.members| == |members|
      ensures forall i :: 0 <= i < |members| ==> r.members[i] == Retype(members[i], cls)
    {
      var elements: seq<Member> := [];
      var i := 0;
      while i < |members|
        invariant 0 <= i <= |members|
        invariant |elements| == i
        invariant forall j :: 0 <= j < i ==> elements[j] == Retype(members[j], cls)
      {
        elements := elements + [Retype(members[i], cls)];
        i := i + 1;
      }
      r := new FluentListImpl(Some(cls), instantiator, elements);
    }
  }

  /** Positional access agrees: `index(0)` is `first()` and `index(size - 1)` is `last()`,
      and all three fail together on an empty list. */
  lemma IndexAgreesWithFirstAndLast(list: FluentListImpl)
    ensures |list.members| == 0 ==>
              list.First().Failure? && list.Last().Failure? && list.Index(0).Failure?
    ensures |list.members| > 0 ==>
              list.Index(0) == list.First() && list.Index(|list.members| - 1) == list.Last()
  {
  }

  /** Each singular getter is element 0 of the matching plural projection, or null. */
  lemma SingularIsHeadOfPlural(list: FluentListImpl, p: Property)
    ensures list.GetFirst(p) == if |list.members| == 0 then None else list.GetAll(p)[0]
  {
  }

  /** The bulk actions reach exactly the enabled members: an enabled member is acted on
      as many times as it occurs in the list, a disabled one never. */
  lemma {:induction false} BulkActsOnExactlyEnabled(ms: seq<Member>, kind: Kind, m: Member)
    ensures multiset(Acts(kind, Select(ms, IsEnabled)))[Act(kind, m)]
         == if m.enabled then multiset(ms)[m] else 0
  {
    var targets := Select(ms, IsEnabled);
    SelectCount(ms, IsEnabled, m);
    ActsCount(kind, targets, m);
  }

  lemma {:induction false} ActsCount(kind: Kind, targets: seq<Member>, m: Member)
    ensures multiset(Acts(kind, targets))[Act(kind, m)] == multiset(targets)[m]
    decreases |targets|
  {
    if targets != [] {
      var init := targets[..|targets| - 1];
      ActsCount(kind, init, m);
      assert targets == init + [targets[|targets| - 1]];
      ActsAppend(kind, init, targets[|targets| - 1]);
    }
  }
}
