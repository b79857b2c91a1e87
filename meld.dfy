/** handler.go: a handler holds the nesting path that WithGroup has opened and the
    tree of attributes merged so far. It never changes after it is made: WithAttrs and
    WithGroup merge into a deep copy and return a new handler, and Handle renders
    either the tree itself or a merged copy of it. */
module Meld {
  import Slog
  import opened Wrappers
  import opened TreeModel
  import TreeProperties
  import Tree

  /** The group WithGroup(name) leaves at the end of the path: the existing group
      entry's contents, or an empty group where the entry is missing or scalar. */
  function GroupNamed<S>(fs: seq<Field<S>>, name: string): (g: seq<Field<S>>)
    ensures Last(fs, [name]).Some? ==> g == Last(fs, [name]).value
    ensures Last(fs, [name]).None? ==> g == []
  {
    assert [name][1..] == [];
    match FirstMatch(fs, name)
    case None => []
    case Some(i) => Promote(fs[i])
  }

  /** A merge under a path that resolves, into a tree whose names are distinct, always
      succeeds, folds the batch into the group at the end of the path, keeps that path
      resolving and keeps the names distinct: the handler's invariant is preserved. */
  lemma MergeUnderPath<S>(fs: seq<Field<S>>, stack: seq<string>, attrs: seq<Slog.Attr<S>>)
    requires Last(fs, stack).Some? && DeepDistinct(fs)
    ensures MergeAt(fs, stack, attrs) == Some(Put(fs, stack, MergeAll(Last(fs, stack).value, attrs)))
    ensures Last(MergeAt(fs, stack, attrs).value, stack) == Some(MergeAll(Last(fs, stack).value, attrs))
    ensures DeepDistinct(MergeAt(fs, stack, attrs).value)
  {
    var l := Last(fs, stack).value;
    TreeProperties.MergeAtBatch(fs, stack, attrs);
    if |attrs| == 0 {
      TreeProperties.PutLast(fs, stack);
    }
    TreeProperties.LastDistinct(fs, stack);
    TreeProperties.MergeAllDistinct(l, attrs);
    TreeProperties.PutDistinct(fs, stack, MergeAll(l, attrs));
  }

  /** Merging an empty group `name` into a group with distinct names leaves a group
      entry `name` that the first-match scan finds, with the old group's contents. */
  lemma OpenGroup<S>(l: seq<Field<S>>, name: string)
    requires Distinct(Names(l))
    ensures Last(MergeAttr(l, Slog.Group(name, [])), [name]) == Some(GroupNamed(l, name))
  {
    var a := Slog.Group<S>(name, []);
    var l' := MergeAttr(l, a);
    assert MergeAll<S>([], []) == [];
    if name in Names(l) {
      var m := LastMatch(l, name).value;
      assert l' == l[m := Node(name, Promote(l[m]))];
      TreeProperties.FirstIsLastWhenDistinct(l, name);
      FirstMatchByNames(l', l, name);
    } else {
      TreeProperties.AppendsNewKey(l, a);
      forall k | 0 <= k < |l| ensures l'[k].name != name {
        assert Names(l)[k] == l[k].name;
      }
      FirstMatchAt(l', name, |l|);
    }
  }

  /** After WithGroup(name), the extended path leads to a group named `name` under the
      old path, which keeps the contents of an existing group entry of that name. */
  lemma WithGroupTarget<S>(fs: seq<Field<S>>, stack: seq<string>, name: string)
    requires Last(fs, stack).Some? && DeepDistinct(fs)
    ensures MergeAt(fs, stack, [Slog.Group(name, [])]).Some?
    ensures Last(MergeAt(fs, stack, [Slog.Group(name, [])]).value, stack + [name]) ==
      Some(GroupNamed(Last(fs, stack).value, name))
  {
    var a := Slog.Group<S>(name, []);
    var l := Last(fs, stack).value;
    MergeUnderPath(fs, stack, [a]);
    var fs' := MergeAt(fs, stack, [a]).value;
    assert MergeAll(l, [a]) == MergeAll(MergeAttr(l, a), []);
    TreeProperties.LastConcat(fs', stack, [name]);
    TreeProperties.LastDistinct(fs, stack);
    OpenGroup(l, name);
  }

  /** One record attribute after another: merging the first attribute of what is left
      of a record under the path, then the rest, folds the whole remainder into the
      target, and the tree stays distinct with the path resolving. */
  lemma HandleStep<S>(cur: seq<Field<S>>, stack: seq<string>, rest: seq<Slog.Attr<S>>)
    requires Last(cur, stack).Some? && DeepDistinct(cur) && |rest| > 0
    ensures var l := Last(cur, stack).value;
      var next := Put(cur, stack, MergeAttr(l, rest[0]));
      && MergeAt(cur, stack, [rest[0]]) == Some(next)
      && Last(next, stack) == Some(MergeAttr(l, rest[0]))
      && DeepDistinct(next)
      && Put(next, stack, MergeAll(MergeAttr(l, rest[0]), rest[1..])) == Put(cur, stack, MergeAll(l, rest))
  {
    var l := Last(cur, stack).value;
    var l1 := MergeAttr(l, rest[0]);
    assert MergeAll(l, [rest[0]]) == MergeAll(l1, []) == l1;
    MergeUnderPath(cur, stack, [rest[0]]);
    TreeProperties.PutPut(cur, stack, l1, MergeAll(l1, rest[1..]));
  }

  /** handler: the path opened by WithGroup and the attribute tree. The handler passed
      on to (`next`) is left out. */
  class Handler<S> {
    const stack: seq<string>
    const root: Tree.Group<S>

    /** The tree is valid, the path resolves, and names are distinct at every depth. */
    ghost predicate Valid()
      reads this, root, root.Repr
    {
      && root.Valid()
      && Last(root.Contents, stack).Some?
      && DeepDistinct(root.Contents)
    }

    /** The group that new attributes are merged into. */
    ghost function Target(): seq<Field<S>>
      requires Valid()
      reads this, root, root.Repr
    {
      Last(root.Contents, stack).value
    }

    /** The composite literal `&handler{...}`. */
    constructor(stack: seq<string>, root: Tree.Group<S>)
      ensures this.stack == stack && this.root == root
    {
      this.stack := stack;
      this.root := root;
    }

    /** handler.WithAttrs: a new handler over a merged deep copy; the same path. */
    method WithAttrs(attrs: seq<Slog.Attr<S>>) returns (h: Handler<S>)
      requires Valid()
      ensures fresh(h) && fresh(h.root.Repr) && h.Valid()
      ensures h.stack == stack
      ensures h.root.Contents == Put(root.Contents, stack, MergeAll(Target(), attrs))
      ensures h.Target() == MergeAll(Target(), attrs)
    {
      var newRoot := root.Clone();
      MergeUnderPath(root.Contents, stack, attrs);
      var ok := newRoot.Merge(stack, attrs);
      h := new Handler(stack, newRoot);
    }

    /** handler.WithGroup: a new handler whose path is extended by `name`, over a deep
        copy in which an (empty) group `name` has been merged under the old path. */
    method WithGroup(name: string) returns (h: Handler<S>)
      requires Valid()
      ensures fresh(h) && fresh(h.root.Repr) && h.Valid()
      ensures h.stack == stack + [name]
      ensures h.root.Contents == Put(root.Contents, stack, MergeAttr(Target(), Slog.Group(name, [])))
      ensures h.Target() == GroupNamed(Target(), name)
    {
      var newRoot := root.Clone();
      MergeUnderPath(root.Contents, stack, [Slog.Group(name, [])]);
      WithGroupTarget(root.Contents, stack, name);
      var ok := newRoot.Merge(stack, [Slog.Group(name, [])]);
      assert MergeAll(Target(), [Slog.Group(name, [])]) == MergeAttr(Target(), Slog.Group(name, []));
      h := new Handler(stack + [name], newRoot);
    }

    /** handler.Handle, reduced to the attributes passed on: the tree's rendering when
        the record has none, else the rendering of a copy into which each record
        attribute has been merged under the path. The handler itself is not changed. */
    method Handle(rec: seq<Slog.Attr<S>>) returns (out: seq<Slog.Attr<S>>)
      requires Valid()
      ensures |rec| == 0 ==> out == Render(root.Contents)
      ensures out == Render(Put(root.Contents, stack, MergeAll(Target(), rec)))
    {
      if |rec| == 0 {
        out := root.Render();
        TreeProperties.PutLast(root.Contents, stack);
        return;
      }
      var newRoot := root.Clone();
      for i := 0 to |rec|
        invariant fresh(newRoot.Repr) && newRoot.Valid()
        invariant Last(newRoot.Contents, stack).Some? && DeepDistinct(newRoot.Contents)
        invariant Put(root.Contents, stack, MergeAll(Target(), rec)) ==
          Put(newRoot.Contents, stack, MergeAll(Last(newRoot.Contents, stack).value, rec[i..]))
      {
        HandleStep(newRoot.Contents, stack, rec[i..]);
        assert rec[i..][0] == rec[i] && rec[i..][1..] == rec[i + 1..];
        var ok := newRoot.Merge(stack, [rec[i]]);
      }
      assert rec[|rec|..] == [];
      TreeProperties.PutLast(newRoot.Contents, stack);
      out := newRoot.Render();
    }
  }

  /** NewHandler: an empty path and an empty tree. */
  method NewHandler<S>() returns (h: Handler<S>)
    ensures fresh(h) && fresh(h.root.Repr) && h.Valid()
    ensures h.stack == [] && h.root.Contents == []
  {
    var root := new Tree.Group();
    h := new Handler([], root);
  }
}
