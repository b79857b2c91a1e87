/** handler.go line 64 builds the new handler's path with `append(h.stack, name)`.
    When h's path has spare capacity, every WithGroup call on h writes its name into
    the same cell of h's backing array, so a sibling handler made later rewrites the
    path of one made earlier. The model's handler keeps its path as an immutable
    sequence, as the doc comment of NewHandler (handler.go lines 16-19) promises
    that a handler never changes once it is made. */
module PathAliasing {
  import Slog
  import GoSlice
  import Meld
  import opened TreeModel
  import opened Wrappers

  /** The path WithGroup("a"), WithGroup("b"), WithGroup("c") leaves is [a b c] over an
      array of capacity 4. WithGroup("d") and then WithGroup("e") on that handler both
      append into the fourth cell, so afterwards the first of the two reads [a b c e]
      as well. */
  method SiblingPaths() returns (d: GoSlice.Slice, e: GoSlice.Slice)
    ensures GoSlice.Valid(d) && GoSlice.Valid(e)
    ensures GoSlice.Elems(d) == ["a", "b", "c", "e"]
    ensures GoSlice.Elems(e) == ["a", "b", "c", "e"]
  {
    var s0 := GoSlice.Nil();
    var s1 := GoSlice.Append(s0, "a");
    var s2 := GoSlice.Append(s1, "b");
    var s3 := GoSlice.Append(s2, "c");
    assert s3.arr.Length == 4 && GoSlice.Elems(s3) == ["a", "b", "c"];
    d := GoSlice.Append(s3, "d");
    e := GoSlice.Append(s3, "e");
    assert d.arr == e.arr;
  }

  /** The tree a run of WithGroup calls leaves: each group holds only the next one. */
  function Chain(ns: seq<string>): seq<Field<string>>
    decreases |ns|
  {
    if |ns| == 0 then [] else [Node(ns[0], Chain(ns[1..]))]
  }

  /** The path of such a run leads to its last, empty group, and WithGroup(name) there
      extends the run by one group. */
  lemma {:induction false} OpenChain(ns: seq<string>, name: string)
    ensures Last(Chain(ns), ns) == Some([])
    ensures Put(Chain(ns), ns, MergeAttr([], Slog.Group(name, []))) == Chain(ns + [name])
    decreases |ns|
  {
    if |ns| == 0 {
      assert MergeAll<string>([], []) == [];
    } else {
      OpenChain(ns[1..], name);
      assert (ns + [name])[1..] == ns[1..] + [name];
      assert FirstMatch(Chain(ns), ns[0]) == Some(0);
    }
  }

  /** A path that leaves the run at its last step does not resolve. */
  lemma {:induction false} ChainMisses(ns: seq<string>, x: string, y: string)
    requires x != y
    ensures Last(Chain(ns + [x]), ns + [y]).None?
    decreases |ns|
  {
    if |ns| == 0 {
      assert Names(Chain([x])) == [x];
    } else {
      ChainMisses(ns[1..], x, y);
      assert (ns + [x])[1..] == ns[1..] + [x];
      assert (ns + [y])[1..] == ns[1..] + [y];
      assert FirstMatch(Chain(ns + [x]), ns[0]) == Some(0);
    }
  }

  /** WithGroup(name) on a handler whose tree is the run of its path. */
  method Open(h: Meld.Handler<string>, name: string) returns (h': Meld.Handler<string>)
    requires h.Valid() && h.root.Contents == Chain(h.stack)
    ensures h'.Valid() && h'.stack == h.stack + [name] && h'.root.Contents == Chain(h'.stack)
  {
    OpenChain(h.stack, name);
    h' := h.WithGroup(name);
  }

  /** NewHandler().WithGroup("a").WithGroup("b").WithGroup("c"), then WithGroup("d")
      and WithGroup("e") on that one handler. */
  method SiblingHandlers() returns (hd: Meld.Handler<string>, he: Meld.Handler<string>)
    ensures hd.Valid() && hd.stack == ["a", "b", "c"] + ["d"] && hd.root.Contents == Chain(hd.stack)
    ensures he.Valid() && he.stack == ["a", "b", "c"] + ["e"] && he.root.Contents == Chain(he.stack)
  {
    var h0 := Meld.NewHandler<string>();
    var h1 := Open(h0, "a");
    var h2 := Open(h1, "b");
    var h3 := Open(h2, "c");
    assert h3.stack == ["a", "b", "c"];
    hd := Open(h3, "d");
    he := Open(h3, "e");
  }

  /** The tree of the handler WithGroup("d") made holds group d under a.b.c and
      nothing named e. The path it reads as written once its sibling exists, [a b c e],
      does not resolve, so its next WithAttrs, or a Handle with any record attribute,
      panics in last. The model's handler keeps the path it was given, and that path
      resolves. */
  method StaleSiblingPath() returns (hd: Meld.Handler<string>, path: seq<string>)
    ensures path == ["a", "b", "c", "e"] && hd.Valid()
    ensures Last(hd.root.Contents, path).None?
    ensures hd.stack == ["a", "b", "c", "d"] && Last(hd.root.Contents, hd.stack).Some?
  {
    var he;
    hd, he := SiblingHandlers();
    var d, e := SiblingPaths();
    path := GoSlice.Elems(d);
    ChainMisses(["a", "b", "c"], "d", "e");
    assert ["a", "b", "c"] + ["e"] == path;
  }
}
