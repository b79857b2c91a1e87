/** The table-driven cases of handler_test.go, replayed on the model with string
    scalars: each method builds the handlers its case builds and returns what the
    final Handle passes on. The text rendering that the test compares (`alice.foo=boo`)
    is the library's formatting of these nested attributes. */
module MeldExamples {
  import Slog
  import Meld
  import TreeProperties
  import opened TreeModel
  import opened Wrappers

  function Str(key: string, s: string): Slog.Attr<string> {
    Slog.Attr(key, Slog.Scalar(s))
  }

  /** handler_test.go lines 22-27: nothing was added, nothing is passed on. */
  method NoAttrs() returns (out: seq<Slog.Attr<string>>)
    ensures out == []
  {
    var h := Meld.NewHandler<string>();
    out := h.Handle([]);
  }

  /** Lines 28-33: an attribute added with With is passed on. */
  method SetOnce() returns (out: seq<Slog.Attr<string>>)
    ensures out == [Str("foo", "bar")]
  {
    var h := Meld.NewHandler<string>();
    var h1 := h.WithAttrs([Str("foo", "bar")]);
    out := h1.Handle([]);
  }

  /** Lines 34-41: setting a key again replaces its value, in place. */
  method SetTwice() returns (out: seq<Slog.Attr<string>>)
    ensures out == [Str("foo", "baz")]
  {
    var h := Meld.NewHandler<string>();
    var h1 := h.WithAttrs([Str("foo", "bar")]);
    var h2 := h1.WithAttrs([Str("foo", "baz")]);
    out := h2.Handle([]);
  }

  /** Lines 42-50: a group merged into a group keeps the fields the second does not
      name, updates the ones it names and appends the new ones. */
  method GroupIntoGroup() returns (out: seq<Slog.Attr<string>>)
    ensures out == [
      Slog.Group("alice", [Str("foo", "boo"), Str("bar", "baz"), Str("qux", "quux")]),
      Str("bob", "lorem_ipsum")]
  {
    var h := Meld.NewHandler<string>();
    var h1 := h.WithAttrs([Alice1]);
    Alice1Merged();
    var h2 := h1.WithAttrs([Alice2]);
    Alice2Merged();
    var h3 := h2.WithAttrs([Str("bob", "lorem_ipsum")]);
    BobMerged();
    out := h3.Handle([]);
  }

  const Alice1 := Slog.Group("alice", [Str("foo", "goo"), Str("bar", "baz")])
  const Alice2 := Slog.Group("alice", [Str("foo", "boo"), Str("qux", "quux")])

  const AliceTree1: seq<Field<string>> :=
    [Node("alice", [Leaf("foo", Slog.Scalar("goo")), Leaf("bar", Slog.Scalar("baz"))])]
  const AliceTree2: seq<Field<string>> :=
    [Node("alice", [Leaf("foo", Slog.Scalar("boo")), Leaf("bar", Slog.Scalar("baz")), Leaf("qux", Slog.Scalar("quux"))])]

  lemma Alice1Merged()
    ensures MergeAll([], [Alice1]) == AliceTree1
  {
    assert MergeAll([], [Str("foo", "goo"), Str("bar", "baz")]) == AliceTree1[0].sub;
  }

  lemma Alice2Merged()
    ensures MergeAll(AliceTree1, [Alice2]) == AliceTree2
  {
    assert MergeAll(AliceTree1[0].sub, [Str("foo", "boo"), Str("qux", "quux")]) == AliceTree2[0].sub;
  }

  lemma BobMerged()
    ensures Render(MergeAll(AliceTree2, [Str("bob", "lorem_ipsum")])) == [
      Slog.Group("alice", [Str("foo", "boo"), Str("bar", "baz"), Str("qux", "quux")]),
      Str("bob", "lorem_ipsum")]
  {
    assert MergeAll(AliceTree2, [Str("bob", "lorem_ipsum")]) == AliceTree2 + [Leaf("bob", Slog.Scalar("lorem_ipsum"))];
    assert Render(AliceTree2[0].sub) == [Str("foo", "boo"), Str("bar", "baz"), Str("qux", "quux")];
  }

  const Alice3 := [Str("foo", "boo"), Str("bar", "baz"), Str("qux", "quux")]

  /** Lines 51-59: a group merged onto a scalar replaces it, at the same position, by a
      group holding only the incoming fields. */
  method ScalarThenGroup() returns (out: seq<Slog.Attr<string>>)
    ensures out == [Slog.Group("alice", [Str("foo", "boo"), Str("qux", "quux")]), Str("bob", "lorem_ipsum")]
  {
    var h := Meld.NewHandler<string>();
    var h1 := h.WithAttrs([Str("alice", "snafu")]);
    assert h1.root.Contents == [Leaf("alice", Slog.Scalar("snafu"))];
    var h2 := h1.WithAttrs([Alice2]);
    PromotedMerged();
    assert h2.root.Contents == PromotedTree;
    var h3 := h2.WithAttrs([Str("bob", "lorem_ipsum")]);
    PromotedRendered();
    out := h3.Handle([]);
  }

  const PromotedTree: seq<Field<string>> :=
    [Node("alice", [Leaf("foo", Slog.Scalar("boo")), Leaf("qux", Slog.Scalar("quux"))])]

  lemma PromotedMerged()
    ensures MergeAll([Leaf("alice", Slog.Scalar("snafu"))], [Alice2]) == PromotedTree
  {
    assert MergeAll([], [Str("foo", "boo"), Str("qux", "quux")]) == PromotedTree[0].sub;
  }

  lemma PromotedRendered()
    ensures Render(MergeAll(PromotedTree, [Str("bob", "lorem_ipsum")])) ==
      [Slog.Group("alice", [Str("foo", "boo"), Str("qux", "quux")]), Str("bob", "lorem_ipsum")]
  {
    assert MergeAll(PromotedTree, [Str("bob", "lorem_ipsum")]) == PromotedTree + [Leaf("bob", Slog.Scalar("lorem_ipsum"))];
    assert Render(PromotedTree[0].sub) == [Str("foo", "boo"), Str("qux", "quux")];
  }

  /** Lines 60-67: attributes of the record itself are merged like those added with
      With. */
  method RecordAttrs() returns (out: seq<Slog.Attr<string>>)
    ensures out == [Slog.Group("alice", Alice3), Str("bob", "lorem_ipsum")]
  {
    var h := Meld.NewHandler<string>();
    var h1 := h.WithAttrs([Alice1]);
    Alice1Merged();
    var h2 := h1.WithAttrs([Alice2]);
    Alice2Merged();
    BobMerged();
    out := h2.Handle([Str("bob", "lorem_ipsum")]);
  }

  /** Lines 68-76: after WithGroup("bob") the record's attributes land in group bob. */
  method GroupedRecord() returns (out: seq<Slog.Attr<string>>)
    ensures out == [Slog.Group("alice", Alice3), Slog.Group("bob", [Str("foo", "lorem_ipsum")])]
  {
    var h := Meld.NewHandler<string>();
    Alice1Merged();
    var h1 := AddAtRoot(h, [], [Alice1], AliceTree1);
    Alice2Merged();
    var h2 := AddAtRoot(h1, AliceTree1, [Alice2], AliceTree2);
    AliceNames();
    out := LogUnderBob(h2, AliceTree2);
  }

  /** Lines 77-85: a group, a group, then a scalar on the same key leave one scalar
      entry at the key's original position. */
  method GroupsThenScalar() returns (out: seq<Slog.Attr<string>>)
    ensures out == [Str("alice", "newtext"), Slog.Group("bob", [Str("foo", "lorem_ipsum")])]
  {
    var h := Meld.NewHandler<string>();
    Alice1Merged();
    var h1 := AddAtRoot(h, [], [Alice1], AliceTree1);
    Alice2Merged();
    var h2 := AddAtRoot(h1, AliceTree1, [Alice2], AliceTree2);
    NewtextMerged();
    var h2a := AddAtRoot(h2, AliceTree2, [Str("alice", "newtext")], NewtextTree);
    out := LogUnderBob(h2a, NewtextTree);
  }

  const NewtextTree: seq<Field<string>> := [Leaf("alice", Slog.Scalar("newtext"))]

  lemma NewtextMerged()
    ensures MergeAll(AliceTree2, [Str("alice", "newtext")]) == NewtextTree
    ensures "bob" !in Names(NewtextTree)
    ensures Render(NewtextTree) == [Str("alice", "newtext")]
  {
    assert Names(NewtextTree) == ["alice"];
  }

  lemma AliceNames()
    ensures "bob" !in Names(AliceTree2)
    ensures Render(AliceTree2) == [Slog.Group("alice", Alice3)]
  {
    assert Names(AliceTree2) == ["alice"];
    assert Render(AliceTree2[0].sub) == Alice3;
  }

  /** `log.With(attrs...)` on a logger with an empty path whose tree is t. */
  method AddAtRoot(h: Meld.Handler<string>, t: seq<Field<string>>, attrs: seq<Slog.Attr<string>>, t': seq<Field<string>>)
    returns (h': Meld.Handler<string>)
    requires h.Valid() && h.stack == [] && h.root.Contents == t && MergeAll(t, attrs) == t'
    ensures h'.Valid() && h'.stack == [] && h'.root.Contents == t'
  {
    h' := h.WithAttrs(attrs);
  }

  /** `log.WithGroup("bob").Info("hello_world", "foo", "lorem_ipsum")` on a logger whose
      tree has no entry bob: group bob, holding foo, is appended. */
  method LogUnderBob(h: Meld.Handler<string>, t: seq<Field<string>>) returns (out: seq<Slog.Attr<string>>)
    requires h.Valid() && h.stack == [] && h.root.Contents == t && "bob" !in Names(t)
    ensures out == Render(t) + [Slog.Group("bob", [Str("foo", "lorem_ipsum")])]
  {
    var h3 := h.WithGroup("bob");
    TreeProperties.AppendsNewKey(t, Slog.Group("bob", []));
    assert MergeAll<string>([], []) == [];
    assert h3.root.Contents == t + [Node("bob", [])] && h3.stack == ["bob"];
    BobFilled(t);
    assert h3.Target() == [];
    out := h3.Handle([Str("foo", "lorem_ipsum")]);
  }

  /** Merging foo under path bob fills that group, at the end. */
  lemma BobFilled(t: seq<Field<string>>)
    requires "bob" !in Names(t)
    ensures Last(t + [Node("bob", [])], ["bob"]) == Some([])
    ensures Render(Put(t + [Node("bob", [])], ["bob"], MergeAll([], [Str("foo", "lorem_ipsum")]))) ==
      Render(t) + [Slog.Group("bob", [Str("foo", "lorem_ipsum")])]
  {
    var t' := t + [Node("bob", [])];
    forall k | 0 <= k < |t| ensures t'[k].name != "bob" {
      assert Names(t)[k] == t[k].name;
    }
    FirstMatchAt(t', "bob", |t|);
    var foo := [Leaf("foo", Slog.Scalar("lorem_ipsum"))];
    assert MergeAll([], [Str("foo", "lorem_ipsum")]) == foo;
    assert Put(t', ["bob"], foo) == t + [Node("bob", foo)] by {
      assert ["bob"][1..] == [];
    }
    TreeProperties.RenderSnoc(t, Node("bob", foo));
    assert Render(foo) == [Str("foo", "lorem_ipsum")];
  }
}
