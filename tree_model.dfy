/** A value-level model of the ordered attribute tree of internal/tree.

    A group is a sequence of named fields; a field is a scalar leaf or a node that
    owns a sub-group. Because a value has exactly one owner, this is the exclusive-
    ownership tree the engine keeps on the heap (module Tree); the heap methods are
    proved to act on it as the functions here say. */
module TreeModel {
  import Slog
  import opened Wrappers

  /** An entry of a group: a scalar (`v` in value.go) or a sub-group (`g`). */
  datatype Field<S> = Leaf(name: string, val: Slog.Value<S>) | Node(name: string, sub: seq<Field<S>>)

  /** The names of a group's entries, in entry order. */
  function Names<S>(fs: seq<Field<S>>): seq<string> {
    seq(|fs|, i requires 0 <= i < |fs| => fs[i].name)
  }

  /** The keys of a batch of attributes, in batch order. */
  function Keys<S>(attrs: seq<Slog.Attr<S>>): seq<string> {
    seq(|attrs|, i requires 0 <= i < |attrs| => attrs[i].key)
  }

  predicate Distinct(ns: seq<string>) {
    forall i, j | 0 <= i < j < |ns| :: ns[i] != ns[j]
  }

  /** Entry names are pairwise distinct within every group of the tree. */
  ghost predicate DeepDistinct<S>(fs: seq<Field<S>>) {
    && Distinct(Names(fs))
    && forall i | 0 <= i < |fs| :: fs[i].Node? ==> DeepDistinct(fs[i].sub)
  }

  /** No leaf of the tree holds a group value (the comment on `v` in value.go). */
  ghost predicate WellKinded<S>(fs: seq<Field<S>>) {
    forall i | 0 <= i < |fs| :: if fs[i].Leaf? then !fs[i].val.IsGroup() else WellKinded(fs[i].sub)
  }

  /** Keys are pairwise distinct within the batch and within every group value in it. */
  ghost predicate DeepDistinctAttrs<S>(attrs: seq<Slog.Attr<S>>) {
    && Distinct(Keys(attrs))
    && forall i | 0 <= i < |attrs| :: attrs[i].value.IsGroup() ==> DeepDistinctAttrs(attrs[i].value.attrs)
  }

  // ---------------------------------------------------------------------------
  // Rendering (value.go LogValue, group.go Render)

  /** The value an entry stands for: its scalar, or the group value of its sub-group's render. */
  function LogValue<S>(f: Field<S>): (v: Slog.Value<S>)
    ensures f.Leaf? ==> v == f.val
    ensures f.Node? ==> v.IsGroup() && Keys(v.attrs) == Names(f.sub)
    decreases f
  {
    match f
    case Leaf(_, v) => v
    case Node(_, sub) =>
      var out := Render(sub);
      assert Keys(out) == Names(sub);
      Slog.GroupValue(out)
  }

  /** One attribute per entry, in entry order. */
  function Render<S>(fs: seq<Field<S>>): (out: seq<Slog.Attr<S>>)
    ensures |out| == |fs|
    ensures forall i | 0 <= i < |fs| :: out[i].key == fs[i].name && out[i].value == LogValue(fs[i])
    decreases fs
  {
    if |fs| == 0 then [] else [Slog.Attr(fs[0].name, LogValue(fs[0]))] + Render(fs[1..])
  }

  /** The tree an attribute batch describes, read back attribute by attribute: the
      reference against which rendering and merging into an empty group are checked. */
  function FromAttrs<S>(attrs: seq<Slog.Attr<S>>): (fs: seq<Field<S>>)
    ensures Names(fs) == Keys(attrs)
    decreases attrs
  {
    if |attrs| == 0 then []
    else
      var fs := [FromAttr(attrs[0])] + FromAttrs(attrs[1..]);
      assert Names(fs) == [attrs[0].key] + Keys(attrs[1..]);
      fs
  }

  function FromAttr<S>(a: Slog.Attr<S>): Field<S>
    decreases a
  {
    match a.value
    case GroupValue(sub) => Node(a.key, FromAttrs(sub))
    case _ => Leaf(a.key, a.value)
  }

  // ---------------------------------------------------------------------------
  // Lookup by name

  /** The index merge's scan leaves in `match`: the last entry with the key. */
  function LastMatch<S>(fs: seq<Field<S>>, key: string): (m: Option<nat>)
    ensures m.Some? ==> m.value < |fs| && fs[m.value].name == key
    ensures m.Some? ==> forall j | m.value < j < |fs| :: fs[j].name != key
    ensures m.None? <==> key !in Names(fs)
  {
    if |fs| == 0 then None
    else if fs[|fs| - 1].name == key then assert Names(fs)[|fs| - 1] == key; Some(|fs| - 1)
    else
      assert Names(fs) == Names(fs[..|fs| - 1]) + [fs[|fs| - 1].name];
      LastMatch(fs[..|fs| - 1], key)
  }

  /** The index last's scan returns at: the first entry with the key. */
  function FirstMatch<S>(fs: seq<Field<S>>, key: string): (m: Option<nat>)
    ensures m.Some? ==> m.value < |fs| && fs[m.value].name == key
    ensures m.Some? ==> forall j | 0 <= j < m.value :: fs[j].name != key
    ensures m.None? <==> key !in Names(fs)
  {
    if |fs| == 0 then None
    else if fs[0].name == key then assert Names(fs)[0] == key; Some(0)
    else
      assert Names(fs) == [fs[0].name] + Names(fs[1..]);
      var m := FirstMatch(fs[1..], key);
      if m.None? then None else Some(m.value + 1)
  }

  /** Which entry the first-match scan picks depends only on the names. */
  lemma FirstMatchByNames<S>(fs: seq<Field<S>>, gs: seq<Field<S>>, key: string)
    requires Names(fs) == Names(gs)
    ensures FirstMatch(fs, key) == FirstMatch(gs, key)
  {
    var m := FirstMatch(fs, key);
    if m.Some? {
      assert Names(gs)[m.value] == Names(fs)[m.value] == key;
      forall k | 0 <= k < m.value
        ensures gs[k].name != key
      {
        assert Names(gs)[k] == Names(fs)[k] == fs[k].name;
      }
      FirstMatchAt(gs, key, m.value);
    }
  }

  /** The first-match scan stops at the first entry carrying the key. */
  lemma FirstMatchAt<S>(fs: seq<Field<S>>, key: string, i: nat)
    requires i < |fs| && fs[i].name == key
    requires forall k | 0 <= k < i :: fs[k].name != key
    ensures FirstMatch(fs, key) == Some(i)
  {
    assert Names(fs)[i] == key;
  }

  // ---------------------------------------------------------------------------
  // Merging at the target group (group.go merge, lines 56-84, and Merge with an empty stack)

  /** The sub-group a group-valued attribute is merged into: the entry's own, or a new
      empty one when the entry is scalar-kind. */
  function Promote<S>(f: Field<S>): seq<Field<S>> {
    if f.Node? then f.sub else []
  }

  /** The names after a batch of keys is folded in: a key not yet present is appended. */
  function AddKeys(ns: seq<string>, ks: seq<string>): seq<string>
    decreases |ks|
  {
    if |ks| == 0 then ns else AddKeys(if ks[0] in ns then ns else ns + [ks[0]], ks[1..])
  }

  /** Folds one attribute into a group: append a new key, replace a scalar in place,
      or merge a group into the (possibly promoted) sub-group. */
  function MergeAttr<S>(fs: seq<Field<S>>, a: Slog.Attr<S>): (r: seq<Field<S>>)
    ensures Names(r) == if a.key in Names(fs) then Names(fs) else Names(fs) + [a.key]
    decreases a
  {
    match LastMatch(fs, a.key)
    case None =>
      if !a.value.IsGroup() then fs + [Leaf(a.key, a.value)]
      else fs + [Node(a.key, MergeAll([], a.value.attrs))]
    case Some(m) =>
      if !a.value.IsGroup() then fs[m := Leaf(a.key, a.value)]
      else fs[m := Node(a.key, MergeAll(Promote(fs[m]), a.value.attrs))]
  }

  /** Folds a batch in, left to right. */
  function MergeAll<S>(fs: seq<Field<S>>, attrs: seq<Slog.Attr<S>>): (r: seq<Field<S>>)
    ensures Names(r) == AddKeys(Names(fs), Keys(attrs))
    decreases attrs
  {
    if |attrs| == 0 then fs
    else
      assert Keys(attrs) == [attrs[0].key] + Keys(attrs[1..]);
      MergeAll(MergeAttr(fs, attrs[0]), attrs[1..])
  }

  // ---------------------------------------------------------------------------
  // Path resolution and merging under a path (group.go last, merge, Merge)

  /** The group a nesting path leads to, descending into the first entry with each
      name; None where the scan finds no entry or lands on a scalar-kind entry (both
      panic in the source). */
  function Last<S>(fs: seq<Field<S>>, stack: seq<string>): (r: Option<seq<Field<S>>>)
    ensures |stack| == 0 ==> r == Some(fs)
    ensures |stack| > 0 && stack[0] !in Names(fs) ==> r.None?
    decreases |stack|
  {
    if |stack| == 0 then Some(fs)
    else
      match FirstMatch(fs, stack[0])
      case None => None
      case Some(i) => if fs[i].Node? then Last(fs[i].sub, stack[1..]) else None
  }

  /** The tree with the group the path leads to replaced by t: what mutating the
      group returned by last does to the whole tree. */
  function Put<S>(fs: seq<Field<S>>, stack: seq<string>, t: seq<Field<S>>): (r: seq<Field<S>>)
    requires Last(fs, stack).Some?
    ensures Last(r, stack) == Some(t)
    ensures |stack| > 0 ==> Names(r) == Names(fs)
    ensures |stack| > 0 ==> forall j | 0 <= j < |fs| && fs[j].name != stack[0] :: r[j] == fs[j]
    decreases |stack|
  {
    if |stack| == 0 then t
    else
      var i := FirstMatch(fs, stack[0]).value;
      var r := fs[i := Node(fs[i].name, Put(fs[i].sub, stack[1..], t))];
      assert forall j | 0 <= j < |r| :: Names(r)[j] == Names(fs)[j];
      FirstMatchByNames(r, fs, stack[0]);
      r
  }

  /** merge(in, stack, attr): resolve the path, then fold the attribute into that group. */
  function MergeOne<S>(fs: seq<Field<S>>, stack: seq<string>, a: Slog.Attr<S>): Option<seq<Field<S>>> {
    match Last(fs, stack)
    case None => None
    case Some(l) => Some(Put(fs, stack, MergeAttr(l, a)))
  }

  /** merge panics exactly where last does; otherwise the path still leads to the
      group the attribute was folded into, and the names along the path are kept. */
  lemma MergeOneResolves<S>(fs: seq<Field<S>>, stack: seq<string>, a: Slog.Attr<S>)
    ensures MergeOne(fs, stack, a).Some? <==> Last(fs, stack).Some?
    ensures MergeOne(fs, stack, a).Some? ==>
      Last(MergeOne(fs, stack, a).value, stack) == Some(MergeAttr(Last(fs, stack).value, a))
    ensures MergeOne(fs, stack, a).Some? && |stack| > 0 ==> Names(MergeOne(fs, stack, a).value) == Names(fs)
  {
  }

  /** Group.Merge(stack, attrs...): merge each attribute in turn; None once one panics. */
  function MergeAt<S>(fs: seq<Field<S>>, stack: seq<string>, attrs: seq<Slog.Attr<S>>): (r: Option<seq<Field<S>>>)
    ensures r.Some? <==> |attrs| == 0 || Last(fs, stack).Some?
    ensures r.Some? && |attrs| > 0 ==> Last(r.value, stack).Some?
    ensures r.Some? && |stack| > 0 ==> Names(r.value) == Names(fs)
    decreases |attrs|
  {
    if |attrs| == 0 then Some(fs)
    else
      MergeOneResolves(fs, stack, attrs[0]);
      match MergeOne(fs, stack, attrs[0])
      case None => None
      case Some(fs') => MergeAt(fs', stack, attrs[1..])
  }
}
