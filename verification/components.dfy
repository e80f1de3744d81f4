/** The component registry of one driver session: an identity-keyed map from the innermost
    element handle to the component object that wraps it (`ComponentsManager`). */
module Components {
  import opened Wrappers
  import opened Selenium

  /** One entry as `getAllComponents` reports it: the component and the handle it is stored under. */
  datatype ComponentBean<C> = ComponentBean(component: C, element: Handle)

  /** The exception `newComponent` raises when the instantiator fails; `cause` is the
      message of the exception it wraps. */
  datatype ComponentException = ComponentException(message: string, cause: string)

  /** The text appended to the class name when a component cannot be built: it names the
      two constructor shapes a component class must offer. */
  const NoValidConstructor: string :=
    " is not a valid component class. No valid constructor found (WebElement) or (WebElement, WebDriver)"

  // ---------------------------------------------------------------------------
  // Unwrapping decorated handles
  // ---------------------------------------------------------------------------

  /** A handle is innermost when it decorates nothing, decorates null, or decorates itself. */
  predicate Innermost(w: Wiring, h: Handle)
  {
    match w.wraps(h)
    case WrapsElement(inner) => inner == h
    case _ => true
  }

  /** `unwrapElement`: follow decorations until a handle that decorates nothing, null or
      itself. The result is always such a fixed point. */
  function Unwrap(w: Wiring, h: Handle): (r: Handle)
    requires Acyclic(w)
    ensures Innermost(w, r)
    ensures w.rank(r) <= w.rank(h)
    decreases w.rank(h)
  {
    match w.wraps(h)
    case WrapsElement(inner) => if inner != h then Unwrap(w, inner) else h
    case _ => h
  }

  /** `t` is reached from `h` by zero or more proper decoration steps. */
  ghost predicate Reaches(w: Wiring, h: Handle, t: Handle)
    requires Acyclic(w)
    decreases w.rank(h)
  {
    h == t || (w.wraps(h).WrapsElement? && w.wraps(h).inner != h && Reaches(w, w.wraps(h).inner, t))
  }

  /** The unwrapped handle lies on the decoration chain that starts at `h`. */
  lemma {:induction false} UnwrapIsReached(w: Wiring, h: Handle)
    requires Acyclic(w)
    ensures Reaches(w, h, Unwrap(w, h))
    decreases w.rank(h)
  {
    match w.wraps(h)
    case WrapsElement(inner) =>
      if inner != h {
        UnwrapIsReached(w, inner);
      }
    case _ =>
  }

  /** The unwrapped handle is the only innermost handle on the chain that starts at `h`:
      together with `UnwrapIsReached` this determines `Unwrap` without its body. */
  lemma {:induction false} UnwrapIsUniqueInnermost(w: Wiring, h: Handle, t: Handle)
    requires Acyclic(w)
    requires Reaches(w, h, t) && Innermost(w, t)
    ensures t == Unwrap(w, h)
    decreases w.rank(h)
  {
    if h != t {
      UnwrapIsUniqueInnermost(w, w.wraps(h).inner, t);
    }
  }

  /** Unwrapping is idempotent: an unwrapped handle unwraps to itself. */
  lemma UnwrapIdempotent(w: Wiring, h: Handle)
    requires Acyclic(w)
    ensures Unwrap(w, Unwrap(w, h)) == Unwrap(w, h)
  {
  }

  // ---------------------------------------------------------------------------
  // The registry map and its transitions
  // ---------------------------------------------------------------------------

  /** `getComponent` on a registry map: the component stored under the innermost handle,
      or null. */
  function Lookup<C>(m: map<Handle, C>, w: Wiring, h: Handle): (r: Option<C>)
    requires Acyclic(w)
    ensures r.Some? <==> Unwrap(w, h) in m
    ensures r.Some? ==> r.value == m[Unwrap(w, h)]
  {
    if Unwrap(w, h) in m then Some(m[Unwrap(w, h)]) else None
  }

  /** The map after `newComponent` stored component `c` built for `element`: one new or
      replaced key, the innermost handle of `element`; every other entry as before. */
  function Register<C>(m: map<Handle, C>, w: Wiring, element: Handle, c: C): (m': map<Handle, C>)
    requires Acyclic(w)
    ensures m'.Keys == m.Keys + {Unwrap(w, element)}
    ensures m'[Unwrap(w, element)] == c
    ensures forall k :: k in m && k != Unwrap(w, element) ==> m'[k] == m[k]
  {
    m[Unwrap(w, element) := c]
  }

  /** The map after `proxyElementFound(proxy, …)`: an entry stored under the raw `proxy`
      key moves to the innermost handle `proxy` now decorates; without such an entry
      nothing changes. */
  function Rekey<C>(m: map<Handle, C>, w: Wiring, proxy: Handle): (m': map<Handle, C>)
    requires Acyclic(w)
    ensures proxy !in m ==> m' == m
    ensures proxy in m ==> m'.Keys == (m.Keys - {proxy}) + {Unwrap(w, proxy)}
    ensures proxy in m ==> m'[Unwrap(w, proxy)] == m[proxy]
    ensures forall k :: k in m && k != proxy && k != Unwrap(w, proxy) ==> m'[k] == m[k]
  {
    if proxy in m then (m - {proxy})[Unwrap(w, proxy) := m[proxy]] else m
  }

  /** Lookup after insert: every handle with the same innermost handle as `element` finds
      the new component; every other handle finds what it found before. */
  lemma LookupAfterRegister<C>(m: map<Handle, C>, w: Wiring, element: Handle, c: C, h: Handle)
    requires Acyclic(w)
    ensures Lookup(Register(m, w, element, c), w, h)
         == if Unwrap(w, h) == Unwrap(w, element) then Some(c) else Lookup(m, w, h)
  {
  }

  /** Two decoration layers over one element collide onto one registry entry. */
  lemma LookupThroughDecoration<C>(m: map<Handle, C>, w: Wiring, h: Handle)
    requires Acyclic(w)
    requires w.wraps(h).WrapsElement? && w.wraps(h).inner != h
    ensures Lookup(m, w, h) == Lookup(m, w, w.wraps(h).inner)
  {
  }

  /** Migration on the found event: the component stored under `proxy` is afterwards
      found through every handle that unwraps like `proxy`, the proxy itself included,
      although the raw proxy key is gone unless the proxy is its own innermost handle;
      every other lookup is unchanged. */
  lemma LookupAfterRekey<C>(m: map<Handle, C>, w: Wiring, proxy: Handle, h: Handle)
    requires Acyclic(w)
    requires proxy in m
    ensures Unwrap(w, h) == Unwrap(w, proxy) ==> Lookup(Rekey(m, w, proxy), w, h) == Some(m[proxy])
    ensures Unwrap(w, proxy) != proxy ==>
              proxy !in Rekey(m, w, proxy) && Lookup(Rekey(m, w, proxy), w, proxy) == Some(m[proxy])
    ensures Unwrap(w, h) != Unwrap(w, proxy) ==> Lookup(Rekey(m, w, proxy), w, h) == Lookup(m, w, h)
  {
  }

  /** The found event moves an entry only once: after the entry has left the raw proxy
      key, a later found event for the same proxy (under whatever wiring is then in force)
      changes nothing, and a lookup through the proxy finds nothing when its new innermost
      handle holds no entry. */
  lemma RekeyOnlyOnce<C>(m: map<Handle, C>, first: Wiring, later: Wiring, proxy: Handle)
    requires Acyclic(first) && Acyclic(later)
    requires proxy in m && Unwrap(first, proxy) != proxy
    ensures Rekey(Rekey(m, first, proxy), later, proxy) == Rekey(m, first, proxy)
    ensures Unwrap(later, proxy) !in Rekey(m, first, proxy) ==>
              Lookup(Rekey(Rekey(m, first, proxy), later, proxy), later, proxy) == None
  {
  }

  /** When the proxy has resolved to `element` (it now decorates `element`, which is
      innermost), the found event moves the component from the proxy key to `element`,
      even though the callback keys on `unwrapElement(proxy)` and ignores its `element`
      argument. */
  lemma RekeyOnResolvedProxy<C>(m: map<Handle, C>, w: Wiring, proxy: Handle, element: Handle)
    requires Acyclic(w)
    requires w.wraps(proxy) == WrapsElement(element) && element != proxy && Innermost(w, element)
    requires proxy in m
    ensures proxy !in Rekey(m, w, proxy)
    ensures Lookup(Rekey(m, w, proxy), w, element) == Some(m[proxy])
  {
  }

  // ---------------------------------------------------------------------------
  // The manager object
  // ---------------------------------------------------------------------------

  class ComponentsManager<C> {
    const instantiator: Instantiator<C>
    /** The registry: innermost handle to component. */
    var components: map<Handle, C>
    /** The handles on which a proxy listener is registered. */
    ghost var listened: set<Handle>

    constructor (instantiator: Instantiator<C>)
      ensures this.instantiator == instantiator
      ensures components == map[] && listened == {}
    {
      this.instantiator := instantiator;
      components := map[];
      listened := {};
    }

    /** `getComponent`: a read-only lookup under the innermost handle. */
    function GetComponent(w: Wiring, element: Handle): (r: Option<C>)
      requires Acyclic(w)
      reads this
      ensures r.Some? <==> Unwrap(w, element) in components
      ensures r == Lookup(components, w, element)
    {
      Lookup(components, w, element)
    }

    /** `getAllComponents`: one (component, key) pair per registry entry, in no particular order. */
    method GetAllComponents() returns (beans: seq<ComponentBean<C>>)
      ensures forall i :: 0 <= i < |beans| ==>
                beans[i].element in components && beans[i].component == components[beans[i].element]
      ensures forall k :: k in components ==> exists i :: 0 <= i < |beans| && beans[i].element == k
      ensures forall i, j :: 0 <= i < j < |beans| ==> beans[i].element != beans[j].element
      ensures |beans| == |components|
    {
      beans := [];
      var rest := components.Keys;
      while rest != {}
        invariant rest <= components.Keys
        invariant forall i :: 0 <= i < |beans| ==>
                    beans[i].element in components.Keys - rest && beans[i].component == components[beans[i].element]
        invariant forall k :: k in components.Keys - rest ==> exists i :: 0 <= i < |beans| && beans[i].element == k
        invariant forall i, j :: 0 <= i < j < |beans| ==> beans[i].element != beans[j].element
        invariant |beans| + |rest| == |components.Keys|
        decreases rest
      {
        var k :| k in rest;
        ghost var before, restBefore := beans, rest;
        beans := beans + [ComponentBean(components[k], k)];
        rest := rest - {k};
        forall k' | k' in components.Keys - rest
          ensures exists i :: 0 <= i < |beans| && beans[i].element == k'
        {
          if k' == k {
            assert beans[|before|].element == k';
          } else {
            assert k' in components.Keys - restBefore;
            var i :| 0 <= i < |before| && before[i].element == k';
            assert beans[i] == before[i];
          }
        }
      }
      assert components.Keys - rest == components.Keys;
      assert |components| == |components.Keys|;
    }

    /** `newComponent`: build a component with the instantiator (from the handle as given)
        and store it under the innermost handle, listening for that handle's proxy events.
        When the instantiator fails, raise an exception naming the class and the accepted
        constructor shapes, and change nothing. */
    method NewComponent(w: Wiring, componentClass: ClassName, element: Handle)
      returns (r: Result<C, ComponentException>)
      requires Acyclic(w)
      modifies this
      ensures instantiator(componentClass, element).Failure? ==>
                && r == Failure(ComponentException(componentClass + NoValidConstructor,
                                                   instantiator(componentClass, element).error))
                && components == old(components) && listened == old(listened)
      ensures instantiator(componentClass, element).Success? ==>
                && r == Success(instantiator(componentClass, element).value)
                && components == Register(old(components), w, element, r.value)
                && listened == old(listened) + {Unwrap(w, element)}
    {
      var built := instantiator(componentClass, element);
      if built.Failure? {
        return Failure(ComponentException(componentClass + NoValidConstructor, built.error));
      }
      var webElement := Unwrap(w, element);
      listened := listened + {webElement};
      components := components[webElement := built.value];
      r := Success(built.value);
    }

    /** `proxyElementFound`: the proxy's underlying element was found (the wiring `w` is
        the one in force at that moment); move its entry, if any, to its new innermost handle. */
    method ProxyElementFound(w: Wiring, proxy: Handle, element: Handle)
      requires Acyclic(w)
      modifies this
      ensures components == Rekey(old(components), w, proxy)
      ensures listened == old(listened)
    {
      if proxy in components {
        var component := components[proxy];
        components := components - {proxy};
        components := components[Unwrap(w, proxy) := component];
      }
    }

    /** `release`: remove the listener from every stored key, then empty the registry. */
    method Release()
      modifies this
      ensures components == map[]
      ensures listened == old(listened) - old(components).Keys
    {
      var rest := components.Keys;
      while rest != {}
        invariant rest <= old(components).Keys
        invariant components == old(components)
        invariant listened == old(listened) - (old(components).Keys - rest)
        decreases rest
      {
        var k :| k in rest;
        listened := listened - {k};
        rest := rest - {k};
      }
      components := map[];
    }
  }

  /** `release` unsubscribes only the keys the registry holds at that moment. A component
      built for a proxy `p` that was innermost then is stored, and listened on, under `p`;
      once the proxy resolves to `e`, its entry moves to `e`, and `release` afterwards
      empties the registry but leaves the listener on `p` registered. */
  method ReleaseKeepsMigratedProxyListener<C>(instantiator: Instantiator<C>, before: Wiring, after: Wiring,
                                             componentClass: ClassName, p: Handle, e: Handle)
    returns (manager: ComponentsManager<C>)
    requires Acyclic(before) && Acyclic(after)
    requires Innermost(before, p) && instantiator(componentClass, p).Success?
    requires after.wraps(p) == WrapsElement(e) && e != p && Innermost(after, e)
    ensures manager.components == map[]
    ensures p in manager.listened && e !in manager.listened
  {
    manager := new ComponentsManager(instantiator);
    var created := manager.NewComponent(before, componentClass, p);
    manager.ProxyElementFound(after, p, e);
    manager.Release();
  }

  /** After `release`, no handle finds a component. */
  lemma LookupAfterRelease<C>(w: Wiring, h: Handle)
    requires Acyclic(w)
    ensures Lookup<C>(map[], w, h) == None
  {
  }
}
