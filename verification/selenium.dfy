/** The parts of the browser-driver vocabulary that the core relies on: element handles, the
    `WrapsElement` decoration relation between handles, and the component instantiator. */
module Selenium {
  import opened Wrappers

  /** A `WebElement` reference. Handles are compared by identity, as the identity-keyed
      registry map compares its keys. */
  type Handle = nat

  /** The fully qualified name of a component class. */
  type ClassName = string

  /** What a handle answers when asked which element it decorates: it is not a
      `WrapsElement` at all, its `getWrappedElement()` is `null`, or it names a handle
      (possibly itself). */
  datatype Wrapped = NotWrapper | WrapsNull | WrapsElement(inner: Handle)

  /** The decoration relation of the page at one instant. It changes over time: a lazy
      proxy decorates the element it found only once it has resolved. `rank` is a witness
      that following decorations always ends, self-decoration aside. */
  datatype Wiring = Wiring(wraps: Handle -> Wrapped, rank: Handle -> nat)

  /** Every proper decoration step goes down in rank, so the only cycles are self-loops. */
  ghost predicate Acyclic(w: Wiring)
  {
    forall h :: w.wraps(h).WrapsElement? && w.wraps(h).inner != h ==> w.rank(w.wraps(h).inner) < w.rank(h)
  }

  /** `ComponentInstantiator.newComponent(componentClass, element)`: builds a component, or
      fails with the message of the exception the reflective construction raised. */
  type Instantiator<C> = (ClassName, Handle) -> Result<C, string>
}
