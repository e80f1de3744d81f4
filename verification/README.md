# FluentLenium component registry and component list, in Dafny

This project models two sequential pieces of FluentLenium's runtime object model and proves
properties of them.

- **The component registry** (`ComponentsManager`, module `Components`). A mutable,
  identity-keyed map from an element handle to the component object that wraps it. A
  component is stored under the *innermost* handle. `unwrapElement` finds that handle by
  following `WrapsElement` decorations until it reaches a handle that decorates nothing,
  decorates null, or decorates itself. When a lazy proxy resolves, `proxyElementFound` moves
  the proxy's entry to the proxy's new innermost handle. `release` removes the listeners on
  the handles it currently holds as keys and empties the map.
- **The aggregate component list** (`FluentListImpl`, module `Domain`). An ordered, mutable
  list of components. It offers positional access, bulk click/submit/clear that skip
  disabled members, positional text assignment where the last value sticks, fan-out search
  that concatenates each member's own results, per-member projections, singular
  "member 0 or null" getters and re-typing (`as`).

Shared vocabulary lives in `Selenium` (handles, the decoration relation, the instantiator)
and `Wrappers` (`Option` for Java's null, `Result`/`Outcome` for thrown exceptions).

Modelling choices:

- A handle is a `nat` compared by identity. What each handle decorates is a `Wiring`: a
  function `Handle -> Wrapped` plus a rank that witnesses acyclicity (a self-loop is
  allowed). The wiring is a parameter of every registry call that unwraps a handle, not a field. A lazy proxy
  starts decorating the element it found only once it resolves. `proxyElementFound`
  therefore sees a different wiring from the earlier `newComponent`.
- The instantiator is an abstract function that either builds a component or fails with a
  cause. Reflection is not modelled.
- Listener registration is a ghost set of handles (`listened`).
- A list member is a record. It holds its component class, its element, the element's
  `enabled`/`displayed` state, its string properties, and the results of its own nested
  searches. Clicks, submits, clears and text writes are appended to an `ActionLog` object.
  The list's bulk methods modify only that log, so the list itself provably does not change.
- The seven plural getters (`getValues` … `getTexts`) are one function `GetAll(p)` over a
  `Property` enumeration. The seven singular getters are likewise one function, `GetFirst(p)`.
  The three `find` overloads are one `Find(q)` over a `Query` with one constructor per
  overload. The indexed overloads are `FindAt(q, n)`.

Points where the code does something one might not expect; the model follows the code:

- `newComponent` registers the proxy listener on the *unwrapped* handle
  (ComponentsManager.java line 84), not on the handle it was given.
- `proxyElementFound` re-keys to `unwrapElement(proxy)` and ignores its `element` argument
  (line 105), although its Javadoc (lines 94-99) describes `element` as the element found.
  `RekeyOnResolvedProxy` shows when the two coincide.
- `release` unsubscribes only the handles that are keys at that moment (lines 123-125). The
  listener of a component created for a proxy that was then innermost sits on the proxy
  (line 84); once `proxyElementFound` has moved the entry to the found element (line 103),
  `release` empties the map but leaves the proxy's listener registered.
  `ReleaseKeepsMigratedProxyListener` exhibits this sequence. Whether a proxy is ever its own
  innermost handle when `newComponent` runs depends on the proxy implementation, which is not
  part of this model.
- The found event moves an entry at most once (lines 103-104): after the entry has moved from
  the proxy to the element it found, a later found event for the same proxy (after a reset,
  resolving to another element) finds no entry under the proxy key and moves nothing. The
  component stays under the first element, so `getComponent(proxy)` no longer finds it: it
  finds only what is stored under the new element, which is nothing unless that element has
  an entry of its own.
  `RekeyOnlyOnce` states this. Whether a proxy resolves more than once likewise depends on
  the proxy implementation.
- `text()` throws on an empty list even when it is given no values (FluentListImpl.java
  lines 163-165). A displayed but disabled member still uses up a value slot (lines 173-181).
- `index(n)` has no guard against a negative `n` (line 116). Java's `get` would throw. The
  model requires `n >= 0`, and the indexed `find` requires the same.

## Model

| member | source | states |
|---|---|---|
| `Components.Unwrap` | fluentlenium-core/src/main/java/org/fluentlenium/core/components/ComponentsManager.java:109-117 | the result is a fixed point: it decorates nothing, decorates null, or decorates itself; following decorations never climbs in rank |
| `Components.UnwrapIsReached` | fluentlenium-core/src/main/java/org/fluentlenium/core/components/ComponentsManager.java:109-117 | the unwrapped handle lies on the decoration chain starting at the given handle |
| `Components.UnwrapIsUniqueInnermost` | fluentlenium-core/src/main/java/org/fluentlenium/core/components/ComponentsManager.java:109-117 | any innermost handle on that chain is the unwrapped handle, so the two lemmas together pin down `unwrapElement` |
| `Components.UnwrapIdempotent` | fluentlenium-core/src/main/java/org/fluentlenium/core/components/ComponentsManager.java:109-117 | `unwrap(unwrap(h)) == unwrap(h)` |
| `Components.Lookup` | fluentlenium-core/src/main/java/org/fluentlenium/core/components/ComponentsManager.java:52-54 | a lookup finds a component exactly when the innermost handle is a key, and then finds the component stored there |
| `Components.Register` | fluentlenium-core/src/main/java/org/fluentlenium/core/components/ComponentsManager.java:83-85 | storing a new component adds or replaces only the key `unwrap(element)`; every other entry is unchanged |
| `Components.Rekey` | fluentlenium-core/src/main/java/org/fluentlenium/core/components/ComponentsManager.java:102-107 | an entry under the raw proxy key moves to `unwrap(proxy)` with the same component; the proxy key is gone unless it is its own innermost handle; other entries are untouched; with no such entry the map is unchanged |
| `Components.LookupAfterRegister` | fluentlenium-core/src/main/java/org/fluentlenium/core/components/ComponentsManager.java:83-86 | after `newComponent(T, h)`, every `h'` with `unwrap(h') == unwrap(h)` finds the new component, and every other handle finds what it found before |
| `Components.LookupThroughDecoration` | fluentlenium-core/src/main/java/org/fluentlenium/core/components/ComponentsManager.java:110-114 | a decorating handle and the handle it decorates find the same component |
| `Components.LookupAfterRekey` | fluentlenium-core/src/main/java/org/fluentlenium/core/components/ComponentsManager.java:102-107 | after the found event, handles that unwrap like the proxy, the proxy itself included, find the migrated component; the raw proxy key is gone unless the proxy is its own innermost handle; all other lookups are unchanged |
| `Components.RekeyOnlyOnce` | fluentlenium-core/src/main/java/org/fluentlenium/core/components/ComponentsManager.java:102-107 | once an entry has moved off the raw proxy key, a later found event for that proxy changes nothing, and a lookup through the proxy then finds nothing when its new innermost handle holds no entry |
| `Components.RekeyOnResolvedProxy` | fluentlenium-core/src/main/java/org/fluentlenium/core/components/ComponentsManager.java:102-107 | when the proxy now decorates the innermost `element` it found, the component moves from the proxy key to `element` |
| `Components.ReleaseKeepsMigratedProxyListener` | fluentlenium-core/src/main/java/org/fluentlenium/core/components/ComponentsManager.java:74-127 | after `newComponent` on a proxy that is innermost, the found event resolving it to `e`, and `release`, the map is empty, `e` is no longer listened on, but the proxy still is |
| `Components.LookupAfterRelease` | fluentlenium-core/src/main/java/org/fluentlenium/core/components/ComponentsManager.java:122-127 | after release no handle finds a component |
| `Components.ComponentsManager.constructor` | fluentlenium-core/src/main/java/org/fluentlenium/core/components/ComponentsManager.java:37-40 | a new manager keeps the given instantiator, has an empty registry and listens to nothing |
| `Components.ComponentsManager.GetComponent` | fluentlenium-core/src/main/java/org/fluentlenium/core/components/ComponentsManager.java:52-54 | a read-only lookup under the innermost handle; the map cannot change (no modifies clause) |
| `Components.ComponentsManager.GetAllComponents` | fluentlenium-core/src/main/java/org/fluentlenium/core/components/ComponentsManager.java:61-67 | exactly one (component, key) pair per map entry: every pair is an entry, every key appears, no key twice, as many pairs as entries |
| `Components.ComponentsManager.NewComponent` | fluentlenium-core/src/main/java/org/fluentlenium/core/components/ComponentsManager.java:74-87 | on instantiator failure: a `ComponentException` whose message is the class name followed by the two accepted constructor shapes, wrapping the cause, with the map and listeners unchanged; on success: the component is returned, the map becomes `Register(old, unwrap(element), c)`, and `unwrap(element)` is added to the listened set |
| `Components.ComponentsManager.ProxyElementFound` | fluentlenium-core/src/main/java/org/fluentlenium/core/components/ComponentsManager.java:101-107 | the map becomes `Rekey(old, proxy)` as one atomic step; the listeners are unchanged |
| `Components.ComponentsManager.Release` | fluentlenium-core/src/main/java/org/fluentlenium/core/components/ComponentsManager.java:122-127 | the listener is removed from every previously stored key, and the map is empty afterwards |
| `Domain.Select` | fluentlenium-core/src/main/java/org/fluentlenium/core/domain/FluentListImpl.java:153-157 | filtering keeps only satisfying elements and is never longer than its input |
| `Domain.SelectConcat` | fluentlenium-core/src/main/java/org/fluentlenium/core/domain/FluentListImpl.java:153-157 | filtering keeps list order (it distributes over concatenation) |
| `Domain.SelectCount` | fluentlenium-core/src/main/java/org/fluentlenium/core/domain/FluentListImpl.java:153-157 | filtering keeps each satisfying element exactly as often as it occurs, and drops every other element |
| `Domain.SelectAll` | fluentlenium-core/src/main/java/org/fluentlenium/core/domain/FluentListImpl.java:172-173 | filtering keeps every element when all of them satisfy the predicate |
| `Domain.SelectEmpty` | fluentlenium-core/src/main/java/org/fluentlenium/core/domain/FluentListImpl.java:186-188 | the filter result is empty exactly when no element satisfies the predicate |
| `Domain.Acts` | fluentlenium-core/src/main/java/org/fluentlenium/core/domain/FluentListImpl.java:153-157 | one action per target, in target order |
| `Domain.BulkActsOnExactlyEnabled` | fluentlenium-core/src/main/java/org/fluentlenium/core/domain/FluentListImpl.java:153-157 | a bulk action reaches an enabled member exactly as many times as it occurs in the list, and a disabled member never |
| `Domain.ActsCount` | fluentlenium-core/src/main/java/org/fluentlenium/core/domain/FluentListImpl.java:199-203 | each target receives exactly one action per occurrence |
| `Domain.Assignments` | fluentlenium-core/src/main/java/org/fluentlenium/core/domain/FluentListImpl.java:174-178 | the k-th displayed member is assigned `values[min(k, len - 1)]` |
| `Domain.TextWritesAreStickyAssignments` | fluentlenium-core/src/main/java/org/fluentlenium/core/domain/FluentListImpl.java:167-184 | the writes of `text(values)`, which follow the loop with its `id` counter, are exactly the sticky assignments to displayed members, restricted to enabled members, in list order |
| `Domain.TextWritesWhenAllEligible` | fluentlenium-core/src/main/java/org/fluentlenium/core/domain/FluentListImpl.java:172-182 | when every member is displayed and enabled, member k is written `values[min(k, len - 1)]`, so `text(\"a\", \"b\")` over three members writes \"a\", \"b\", \"b\" |
| `Domain.TextWritesNone` | fluentlenium-core/src/main/java/org/fluentlenium/core/domain/FluentListImpl.java:179-188 | `text` writes nothing exactly when no member is both displayed and enabled |
| `Domain.FindAllConcat` | fluentlenium-core/src/main/java/org/fluentlenium/core/domain/FluentListImpl.java:383-386 | fan-out search keeps member order, then match order within a member |
| `Domain.FindAllExample` | fluentlenium-core/src/main/java/org/fluentlenium/core/domain/FluentListImpl.java:383-386 | members matching [a0, a1] and [b0] give [a0, a1, b0] |
| `Domain.FindAllFirstMember` | fluentlenium-core/src/main/java/org/fluentlenium/core/domain/FluentListImpl.java:383-386 | the first member's matches come first, followed by the fan-out over the rest |
| `Domain.FindAllLength` | fluentlenium-core/src/main/java/org/fluentlenium/core/domain/FluentListImpl.java:410-411 | the number of matches is the sum of the members' match counts |
| `Domain.Retype` | fluentlenium-core/src/main/java/org/fluentlenium/core/domain/FluentListImpl.java:490-492 | a re-typed member wraps the same element with the same state and has the new class |
| `Domain.IndexAgreesWithFirstAndLast` | fluentlenium-core/src/main/java/org/fluentlenium/core/domain/FluentListImpl.java:97-120 | `index(0) == first()` and `index(size-1) == last()`; on an empty list all three fail |
| `Domain.SingularIsHeadOfPlural` | fluentlenium-core/src/main/java/org/fluentlenium/core/domain/FluentListImpl.java:243-359 | each singular getter is element 0 of the matching plural projection, or null |
| `Domain.ActionLog.constructor` | fluentlenium-core/src/main/java/org/fluentlenium/core/domain/FluentListImpl.java:153-157 | a fresh log has recorded no action |
| `Domain.FluentListImpl.constructor` | fluentlenium-core/src/main/java/org/fluentlenium/core/domain/FluentListImpl.java:55-59 | a list holds the given class, instantiator and members |
| `Domain.FluentListImpl.FromElements` | fluentlenium-core/src/main/java/org/fluentlenium/core/domain/FluentListImpl.java:77-83 | it succeeds exactly when the instantiator builds every element as a `FluentWebElement`; member i is then the component built for element i, and the list keeps the class and the instantiator; otherwise the failure of the first element the instantiator cannot build propagates |
| `Domain.FluentListImpl.ToElements` | fluentlenium-core/src/main/java/org/fluentlenium/core/domain/FluentListImpl.java:85-93 | same length; element i is member i's element |
| `Domain.FluentListImpl.First` | fluentlenium-core/src/main/java/org/fluentlenium/core/domain/FluentListImpl.java:95-102 | fails with NoSuchElement exactly on an empty list, otherwise returns member 0 |
| `Domain.FluentListImpl.Last` | fluentlenium-core/src/main/java/org/fluentlenium/core/domain/FluentListImpl.java:104-111 | fails with NoSuchElement exactly on an empty list, otherwise returns the final member |
| `Domain.FluentListImpl.Index` | fluentlenium-core/src/main/java/org/fluentlenium/core/domain/FluentListImpl.java:113-120 | fails with NoSuchElement exactly when `n >= size`, otherwise returns member n |
| `Domain.FluentListImpl.ActOnEnabled` | fluentlenium-core/src/main/java/org/fluentlenium/core/domain/FluentListImpl.java:148-158 | fails up front on an empty list and logs nothing; otherwise logs one action per enabled member in list order |
| `Domain.FluentListImpl.Click` | fluentlenium-core/src/main/java/org/fluentlenium/core/domain/FluentListImpl.java:147-159 | the same for click; the list is not modified |
| `Domain.FluentListImpl.Submit` | fluentlenium-core/src/main/java/org/fluentlenium/core/domain/FluentListImpl.java:228-240 | the same for submit |
| `Domain.FluentListImpl.ClearAll` | fluentlenium-core/src/main/java/org/fluentlenium/core/domain/FluentListImpl.java:193-206 | the same for clear |
| `Domain.FluentListImpl.Clear` | fluentlenium-core/src/main/java/org/fluentlenium/core/domain/FluentListImpl.java:208-211 | the same outcome and log as `clearAll()` |
| `Domain.FluentListImpl.ClearList` | fluentlenium-core/src/main/java/org/fluentlenium/core/domain/FluentListImpl.java:213-216 | the list becomes empty and no member is acted on (no log is involved) |
| `Domain.FluentListImpl.Text` | fluentlenium-core/src/main/java/org/fluentlenium/core/domain/FluentListImpl.java:161-191 | fails on an empty list, whatever the values, and writes nothing; with no values it passes and writes nothing; with values and no displayed-and-enabled member it fails and writes nothing; otherwise it logs exactly the sticky writes |
| `Domain.FluentListImpl.GetAll` | fluentlenium-core/src/main/java/org/fluentlenium/core/domain/FluentListImpl.java:242-303 | same length and order; entry i is member i's property |
| `Domain.FluentListImpl.GetFirst` | fluentlenium-core/src/main/java/org/fluentlenium/core/domain/FluentListImpl.java:305-359 | member 0's property, or null on an empty list |
| `Domain.FluentListImpl.Find` | fluentlenium-core/src/main/java/org/fluentlenium/core/domain/FluentListImpl.java:381-406 | a new list whose members are the concatenation of each member's own results, in member order, with the same class and instantiator; this list is not modified |
| `Domain.FluentListImpl.FindAt` | fluentlenium-core/src/main/java/org/fluentlenium/core/domain/FluentListImpl.java:408-449 | fails, reporting the position and the number of matches (the sum of the members' own match counts), exactly when `n` is not below that number; otherwise returns match n |
| `Domain.FluentListImpl.FindFirst` | fluentlenium-core/src/main/java/org/fluentlenium/core/domain/FluentListImpl.java:451-464 | indexed find at 0: the first match, or a failure reporting position 0 of 0 |
| `Domain.FluentListImpl.As` | fluentlenium-core/src/main/java/org/fluentlenium/core/domain/FluentListImpl.java:486-495 | a new list of the requested class with this list's instantiator; same length and order; member i wraps member i's element |

## Left out

- Weak references and garbage-collection eviction in the registry's `WeakIdentityHashMap`: the model is a plain identity-keyed map emptied only by `release`.
- `synchronized` on `proxyElementFound`: the callback is one atomic step, and concurrency is not modelled.
- The `Proxies` calls (`addProxyListener`, `removeProxyListener`, `isPresent`, `now`, `reset`, `isLoaded`): the proxy implementation is not part of this model. Listener registration is a ghost set of handles. `isPresent`, `now`, `reset` and `isLoaded` are not modelled.
- `ComponentsManager.isComponentClass`, `getInstantiator`, the no-op `proxyElementSearch` and the constructor that builds a default instantiator: these only delegate or do nothing. The `WebDriver` is not modelled.
- The `ElementLocator` argument of `proxyElementFound`: the code never reads it.
- Reflective construction in the instantiator: it is an abstract function that may fail.
- `each()`, `one()`, `fill()` and `fillSelect()`: they hand the list to condition and form-filling collaborators that are not part of this model. The `$` aliases only delegate to `find`.
- `WebElement` calls (`isEnabled`, `isDisplayed`, `getText`, `click`, …): they are fixed record fields and log entries. The model assumes a member's enabled/displayed state does not change while a bulk operation runs. Staleness is not modelled.
- `Domain.Retype`: `FluentWebElement.as` is not part of this model. A re-typed member keeps its element and state and only changes class. Component object identity, and the fact that `as` builds a fresh instance, are not captured.
- Exception messages of the list: only their kind is modelled. For indexed `find` the model also keeps the requested position and the number of matches. The selector text in the message and the "Element no found" spelling in `clearAll`/`submit` are not modelled.
- `Domain.FluentListImpl.Index`: a negative index is excluded by a precondition instead of modelling Java's `IndexOutOfBoundsException`.
- `Domain.FluentListImpl.FindAt`: a negative index is excluded by a precondition instead of modelling the `IndexOutOfBoundsException` of `get`, and a null `Integer` index, which would throw `NullPointerException` on unboxing, is not representable.
- `Domain.FluentListImpl.GetAll`: `getValues` … `getTexts` return a `Lists.transform` view that re-reads each element on every access and follows later changes to the list (after `clearList()` it is empty). The model returns a snapshot of the properties at the time of the call.
- `Components.Unwrap`: its precondition excludes decoration cycles of two or more handles. On such a cycle `unwrapElement` recurses without end and fails with `StackOverflowError`, and so do `getComponent`, `newComponent` and `proxyElementFound`; the model does not represent that failure.
- The constructors without a component class or instantiator: one constructor with optional class and instantiator stands for all six.
- `examples/spring/src/main/java/org/fluentlenium/example/spring/page/MainPage.java`: an example page object with no logic of its own.
