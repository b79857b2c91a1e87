/** The two types the merge engine exchanges with the structured-logging library:
    a value and a named attribute. The library's own kinds (string, int, time, ...)
    are collapsed into one opaque scalar payload S; only the distinction between a
    group value and everything else matters to the engine. */
module Slog {

  /** A log value. `Zero` is the library's zero value (kind Any, no payload), which
      a group-kind tree entry keeps in its scalar field; `Scalar` is any other
      non-group value; `GroupValue` is a group of attributes. */
  datatype Value<S> = Zero | Scalar(s: S) | GroupValue(attrs: seq<Attr<S>>) {

    /** Kind() == KindGroup */
    predicate IsGroup() {
      GroupValue?
    }
  }

  /** A key and a value. */
  datatype Attr<S> = Attr(key: string, value: Value<S>)

  /** The library's `Group(name, ...)` constructor: a group-valued attribute. */
  function Group<S>(key: string, attrs: seq<Attr<S>>): Attr<S> {
    Attr(key, GroupValue(attrs))
  }

  /** The zero attribute, with which a freshly made slice of attributes is filled. */
  function ZeroAttr<S>(): Attr<S> {
    Attr("", Zero)
  }
}
