/** What the merge engine promises, proved about the value-level model. */
module TreeProperties {
  import Slog
  import opened Wrappers
  import opened TreeModel

  // ---------------------------------------------------------------------------
  // Name order

  /** Folding keys in keeps the old names as a prefix, adds exactly the new keys,
      and never introduces a duplicate. */
  lemma {:induction false} AddKeysFacts(ns: seq<string>, ks: seq<string>)
    ensures |AddKeys(ns, ks)| >= |ns| && AddKeys(ns, ks)[..|ns|] == ns
    ensures forall x :: x in AddKeys(ns, ks) <==> x in ns || x in ks
    ensures Distinct(ns) ==> Distinct(AddKeys(ns, ks))
    decreases |ks|
  {
    if |ks| > 0 {
      var ns' := if ks[0] in ns then ns else ns + [ks[0]];
      AddKeysFacts(ns', ks[1..]);
      assert AddKeys(ns', ks[1..])[..|ns'|][..|ns|] == ns;
      forall x ensures x in ks <==> x == ks[0] || x in ks[1..] {
        assert ks == [ks[0]] + ks[1..];
      }
      if Distinct(ns) && ks[0] !in ns {
        assert Distinct(ns');
      }
    }
  }

  /** A key the batch does not name keeps its entry: entries not named by an incoming
      group are left untouched by the structural merge. */
  lemma {:induction false} MergeAllKeepsUnnamed<S>(fs: seq<Field<S>>, attrs: seq<Slog.Attr<S>>)
    ensures |MergeAll(fs, attrs)| >= |fs|
    ensures forall j | 0 <= j < |fs| && fs[j].name !in Keys(attrs) :: MergeAll(fs, attrs)[j] == fs[j]
    decreases |attrs|
  {
    if |attrs| > 0 {
      var fs' := MergeAttr(fs, attrs[0]);
      assert Keys(attrs) == [attrs[0].key] + Keys(attrs[1..]);
      MergeAttrKeepsOthers(fs, attrs[0]);
      MergeAllKeepsUnnamed(fs', attrs[1..]);
    }
  }

  /** One attribute never shortens a group and leaves every entry of another name unchanged. */
  lemma MergeAttrKeepsOthers<S>(fs: seq<Field<S>>, a: Slog.Attr<S>)
    ensures |MergeAttr(fs, a)| >= |fs|
    ensures forall j | 0 <= j < |fs| && fs[j].name != a.key :: MergeAttr(fs, a)[j] == fs[j]
  {
    assert |Names(MergeAttr(fs, a))| >= |Names(fs)|;
  }

  // ---------------------------------------------------------------------------
  // The three-way rule (group.go merge)

  /** No match: exactly one entry is appended, at the end, and every earlier entry is
      unchanged. */
  lemma AppendsNewKey<S>(fs: seq<Field<S>>, a: Slog.Attr<S>)
    requires a.key !in Names(fs)
    ensures var r := MergeAttr(fs, a);
      && |r| == |fs| + 1 && r[..|fs|] == fs && r[|fs|].name == a.key
      && (!a.value.IsGroup() ==> r[|fs|] == Leaf(a.key, a.value))
      && (a.value.IsGroup() ==> r[|fs|] == Node(a.key, MergeAll([], a.value.attrs)))
  {
  }

  /** A scalar onto an existing key replaces that entry at the same index, whatever its
      kind was (a sub-group is discarded); length and every other index are unchanged. */
  lemma ScalarReplacesInPlace<S>(fs: seq<Field<S>>, a: Slog.Attr<S>)
    requires a.key in Names(fs) && !a.value.IsGroup()
    ensures var r := MergeAttr(fs, a); var m := LastMatch(fs, a.key).value;
      && fs[m].name == a.key
      && |r| == |fs| && r[m] == Leaf(a.key, a.value)
      && forall j | 0 <= j < |fs| && j != m :: r[j] == fs[j]
  {
  }

  /** A group onto a group-kind entry merges structurally: the entry stays a group at the
      same index, its fields not named by the incoming group keep their place and value,
      and its names become the old ones followed by the new keys. */
  lemma GroupMergesIntoGroup<S>(fs: seq<Field<S>>, a: Slog.Attr<S>)
    requires a.key in Names(fs) && a.value.IsGroup()
    requires fs[LastMatch(fs, a.key).value].Node?
    ensures var r := MergeAttr(fs, a); var m := LastMatch(fs, a.key).value; var prior := fs[m].sub;
      && |r| == |fs| && r[m].Node? && r[m].name == a.key
      && (forall j | 0 <= j < |fs| && j != m :: r[j] == fs[j])
      && |r[m].sub| >= |prior|
      && (forall j | 0 <= j < |prior| && prior[j].name !in Keys(a.value.attrs) :: r[m].sub[j] == prior[j])
      && Names(r[m].sub) == AddKeys(Names(prior), Keys(a.value.attrs))
  {
    var m := LastMatch(fs, a.key).value;
    MergeAllKeepsUnnamed(fs[m].sub, a.value.attrs);
  }

  /** A group onto a scalar-kind entry replaces it, at the same index, by a group that
      holds only the incoming fields. */
  lemma GroupReplacesScalar<S>(fs: seq<Field<S>>, a: Slog.Attr<S>)
    requires a.key in Names(fs) && a.value.IsGroup()
    requires fs[LastMatch(fs, a.key).value].Leaf?
    ensures var r := MergeAttr(fs, a); var m := LastMatch(fs, a.key).value;
      && |r| == |fs| && r[m] == Node(a.key, MergeAll([], a.value.attrs))
      && Names(r[m].sub) == AddKeys([], Keys(a.value.attrs))
      && (forall j | 0 <= j < |fs| && j != m :: r[j] == fs[j])
  {
  }

  // ---------------------------------------------------------------------------
  // Invariants kept by merging

  /** Names distinct at every depth before a merge are distinct at every depth after it. */
  lemma {:induction false} MergeAttrDistinct<S>(fs: seq<Field<S>>, a: Slog.Attr<S>)
    requires DeepDistinct(fs)
    ensures DeepDistinct(MergeAttr(fs, a))
    decreases a
  {
    var r := MergeAttr(fs, a);
    if a.key !in Names(fs) {
      assert Distinct(Names(fs) + [a.key]);
    }
    match LastMatch(fs, a.key)
    case None =>
      if a.value.IsGroup() {
        MergeAllDistinct([], a.value.attrs);
        assert r[|fs|].sub == MergeAll([], a.value.attrs);
      }
      assert forall i | 0 <= i < |fs| :: r[i] == fs[i];
    case Some(m) =>
      if a.value.IsGroup() {
        MergeAllDistinct(Promote(fs[m]), a.value.attrs);
      }
      assert forall i | 0 <= i < |fs| && i != m :: r[i] == fs[i];
  }

  lemma {:induction false} MergeAllDistinct<S>(fs: seq<Field<S>>, attrs: seq<Slog.Attr<S>>)
    requires DeepDistinct(fs)
    ensures DeepDistinct(MergeAll(fs, attrs))
    decreases attrs
  {
    if |attrs| > 0 {
      MergeAttrDistinct(fs, attrs[0]);
      MergeAllDistinct(MergeAttr(fs, attrs[0]), attrs[1..]);
    }
  }

  /** A merge stores only non-group values in leaves: an entry is scalar or group, never
      a scalar holding a group. */
  lemma {:induction false} MergeAttrWellKinded<S>(fs: seq<Field<S>>, a: Slog.Attr<S>)
    requires WellKinded(fs)
    ensures WellKinded(MergeAttr(fs, a))
    decreases a
  {
    var r := MergeAttr(fs, a);
    match LastMatch(fs, a.key)
    case None =>
      if a.value.IsGroup() {
        MergeAllWellKinded([], a.value.attrs);
      }
      assert forall i | 0 <= i < |fs| :: r[i] == fs[i];
    case Some(m) =>
      if a.value.IsGroup() {
        MergeAllWellKinded(Promote(fs[m]), a.value.attrs);
      }
      assert forall i | 0 <= i < |fs| && i != m :: r[i] == fs[i];
  }

  lemma {:induction false} MergeAllWellKinded<S>(fs: seq<Field<S>>, attrs: seq<Slog.Attr<S>>)
    requires WellKinded(fs)
    ensures WellKinded(MergeAll(fs, attrs))
    decreases attrs
  {
    if |attrs| > 0 {
      MergeAttrWellKinded(fs, attrs[0]);
      MergeAllWellKinded(MergeAttr(fs, attrs[0]), attrs[1..]);
    }
  }

  // ---------------------------------------------------------------------------
  // Batches (group.go Merge)

  /** A batch is the left-to-right fold of its parts. */
  lemma {:induction false} MergeAllConcat<S>(fs: seq<Field<S>>, a: seq<Slog.Attr<S>>, b: seq<Slog.Attr<S>>)
    ensures MergeAll(fs, a + b) == MergeAll(MergeAll(fs, a), b)
    decreases |a|
  {
    if |a| == 0 {
      assert a + b == b;
    } else {
      assert (a + b)[0] == a[0] && (a + b)[1..] == a[1..] + b;
      MergeAllConcat(MergeAttr(fs, a[0]), a[1..], b);
    }
  }

  /** A later scalar overrides an earlier attribute with the same key, in the same batch
      or a later one: the earlier one leaves no trace. */
  lemma LaterScalarOverrides<S>(fs: seq<Field<S>>, a: Slog.Attr<S>, b: Slog.Attr<S>)
    requires a.key == b.key && !b.value.IsGroup()
    ensures MergeAll(fs, [a, b]) == MergeAll(fs, [b])
  {
    assert [a, b][1..] == [b];
    var fs1 := MergeAttr(fs, a);
    assert MergeAll(fs, [a, b]) == MergeAll(fs1, [b]);
    assert MergeAll(fs1, [b]) == MergeAttr(fs1, b);
    assert MergeAll(fs, [b]) == MergeAttr(fs, b);
    match LastMatch(fs, a.key)
    case None =>
      assert fs1[|fs|].name == a.key;
      assert LastMatch(fs1, b.key) == Some(|fs|);
      assert fs1[|fs| := Leaf(b.key, b.value)] == fs + [Leaf(b.key, b.value)];
    case Some(m) =>
      assert fs1[m].name == a.key;
      assert LastMatch(fs1, b.key) == Some(m);
      assert fs1[m := Leaf(b.key, b.value)] == fs[m := Leaf(b.key, b.value)];
  }

  /** Merging the same scalar attribute twice is the same as merging it once. */
  lemma ScalarMergeIdempotent<S>(fs: seq<Field<S>>, a: Slog.Attr<S>)
    requires !a.value.IsGroup()
    ensures MergeAll(MergeAll(fs, [a]), [a]) == MergeAll(fs, [a])
  {
    MergeAllConcat(fs, [a], [a]);
    assert [a] + [a] == [a, a];
    LaterScalarOverrides(fs, a, a);
  }

  /** An empty batch changes nothing, whatever the stack. */
  lemma MergeEmptyBatch<S>(fs: seq<Field<S>>, stack: seq<string>)
    ensures MergeAll(fs, []) == fs
    ensures MergeAt(fs, stack, []) == Some(fs)
  {
  }

  // ---------------------------------------------------------------------------
  // Paths (group.go last)

  /** With distinct names, the entry last descends into is the one merge updates. */
  lemma FirstIsLastWhenDistinct<S>(fs: seq<Field<S>>, key: string)
    requires Distinct(Names(fs))
    ensures FirstMatch(fs, key) == LastMatch(fs, key)
  {
    var m, n := FirstMatch(fs, key), LastMatch(fs, key);
    if m.Some? && n.Some? {
      assert Names(fs)[m.value] == key && Names(fs)[n.value] == key;
    }
  }

  /** Resolving a path in two parts is resolving the whole path. */
  lemma {:induction false} LastConcat<S>(fs: seq<Field<S>>, s1: seq<string>, s2: seq<string>)
    ensures Last(fs, s1 + s2) == if Last(fs, s1).None? then None else Last(Last(fs, s1).value, s2)
    decreases |s1|
  {
    if |s1| == 0 {
      assert s1 + s2 == s2;
    } else {
      assert (s1 + s2)[0] == s1[0] && (s1 + s2)[1..] == s1[1..] + s2;
      match FirstMatch(fs, s1[0])
      case None =>
      case Some(i) =>
        if fs[i].Node? {
          LastConcat(fs[i].sub, s1[1..], s2);
        }
    }
  }

  /** Putting back the group a path leads to gives the tree back. */
  lemma {:induction false} PutLast<S>(fs: seq<Field<S>>, stack: seq<string>)
    requires Last(fs, stack).Some?
    ensures Put(fs, stack, Last(fs, stack).value) == fs
    decreases |stack|
  {
    if |stack| > 0 {
      var i := FirstMatch(fs, stack[0]).value;
      PutLast(fs[i].sub, stack[1..]);
    }
  }

  /** Replacing the target twice keeps only the second replacement. */
  lemma {:induction false} PutPut<S>(fs: seq<Field<S>>, stack: seq<string>, t1: seq<Field<S>>, t2: seq<Field<S>>)
    requires Last(fs, stack).Some?
    ensures Last(Put(fs, stack, t1), stack).Some?
    ensures Put(Put(fs, stack, t1), stack, t2) == Put(fs, stack, t2)
    decreases |stack|
  {
    if |stack| > 0 {
      var i := FirstMatch(fs, stack[0]).value;
      var r := Put(fs, stack, t1);
      FirstMatchByNames(r, fs, stack[0]);
      PutPut(fs[i].sub, stack[1..], t1, t2);
    }
  }

  /** p is a prefix of s. */
  predicate IsPrefix(p: seq<string>, s: seq<string>) {
    |p| <= |s| && s[..|p|] == p
  }

  /** Every group on the way to the target keeps its names, and every entry in it other
      than the one the path descends into. */
  lemma {:induction false} PutKeepsSiblings<S>(fs: seq<Field<S>>, stack: seq<string>, t: seq<Field<S>>, k: nat)
    requires Last(fs, stack).Some? && k < |stack|
    ensures Last(fs, stack[..k]).Some? && Last(Put(fs, stack, t), stack[..k]).Some?
    ensures var g, g' := Last(fs, stack[..k]).value, Last(Put(fs, stack, t), stack[..k]).value;
      && Names(g') == Names(g)
      && forall j | 0 <= j < |g| && g[j].name != stack[k] :: g'[j] == g[j]
    decreases |stack|
  {
    var r := Put(fs, stack, t);
    if k == 0 {
      assert stack[..0] == [];
    } else {
      var i := FirstMatch(fs, stack[0]).value;
      FirstMatchByNames(r, fs, stack[0]);
      PutKeepsSiblings(fs[i].sub, stack[1..], t, k - 1);
      assert stack[..k][0] == stack[0] && stack[..k][1..] == stack[1..][..k - 1];
      assert stack[1..][k - 1] == stack[k];
    }
  }

  /** A path that neither leads through the target nor into it resolves as before. */
  lemma {:induction false} PutElsewhere<S>(fs: seq<Field<S>>, stack: seq<string>, t: seq<Field<S>>, p: seq<string>)
    requires Last(fs, stack).Some? && !IsPrefix(stack, p) && !IsPrefix(p, stack)
    ensures Last(Put(fs, stack, t), p) == Last(fs, p)
    decreases |stack|
  {
    assert |stack| > 0 && |p| > 0 by {
      assert stack[..0] == [] && p[..0] == [];
    }
    var r := Put(fs, stack, t);
    var i := FirstMatch(fs, stack[0]).value;
    FirstMatchByNames(r, fs, p[0]);
    if p[0] == stack[0] {
      PrefixTail(stack, p);
      PrefixTail(p, stack);
      PutElsewhere(fs[i].sub, stack[1..], t, p[1..]);
    } else if FirstMatch(fs, p[0]).Some? {
      var j := FirstMatch(fs, p[0]).value;
      assert r[j] == fs[j];
    }
  }

  /** Two paths that start alike are in the prefix order exactly when their tails are. */
  lemma PrefixTail(a: seq<string>, b: seq<string>)
    requires |a| > 0 && |b| > 0 && a[0] == b[0]
    ensures IsPrefix(a[1..], b[1..]) ==> IsPrefix(a, b)
  {
    if IsPrefix(a[1..], b[1..]) {
      assert b[..|a|] == [b[0]] + b[1..][..|a| - 1];
      assert a == [a[0]] + a[1..];
    }
  }

  /** Merge re-resolves the stack for every attribute; that is the same as resolving it
      once and folding the whole batch into the target, which nothing else sees. A
      non-empty batch fails exactly when the stack does not resolve. */
  lemma {:induction false} MergeAtBatch<S>(fs: seq<Field<S>>, stack: seq<string>, attrs: seq<Slog.Attr<S>>)
    ensures MergeAt(fs, stack, attrs) ==
      if |attrs| == 0 then Some(fs)
      else if Last(fs, stack).None? then None
      else Some(Put(fs, stack, MergeAll(Last(fs, stack).value, attrs)))
    decreases |attrs|
  {
    if |attrs| > 0 && Last(fs, stack).Some? {
      var l := Last(fs, stack).value;
      var l1 := MergeAttr(l, attrs[0]);
      var fs1 := Put(fs, stack, l1);
      MergeAtBatch(fs1, stack, attrs[1..]);
      PutPut(fs, stack, l1, MergeAll(l1, attrs[1..]));
    }
  }

  /** With an empty stack a batch always succeeds and is the plain fold. */
  lemma MergeAtRoot<S>(fs: seq<Field<S>>, attrs: seq<Slog.Attr<S>>)
    ensures MergeAt(fs, [], attrs) == Some(MergeAll(fs, attrs))
  {
    MergeAtBatch(fs, [], attrs);
  }

  /** Merge under a stack is a left-to-right fold of its parts too. */
  lemma {:induction false} MergeAtConcat<S>(fs: seq<Field<S>>, stack: seq<string>, a: seq<Slog.Attr<S>>, b: seq<Slog.Attr<S>>)
    ensures MergeAt(fs, stack, a + b) ==
      if MergeAt(fs, stack, a).None? then None else MergeAt(MergeAt(fs, stack, a).value, stack, b)
    decreases |a|
  {
    if |a| == 0 {
      assert a + b == b;
    } else {
      assert (a + b)[0] == a[0] && (a + b)[1..] == a[1..] + b;
      match MergeOne(fs, stack, a[0])
      case None =>
      case Some(fs1) => MergeAtConcat(fs1, stack, a[1..], b);
    }
  }

  /** The group a path leads to in a tree with distinct names has distinct names, and
      putting such a group back keeps the whole tree distinct. */
  lemma {:induction false} LastDistinct<S>(fs: seq<Field<S>>, stack: seq<string>)
    requires DeepDistinct(fs) && Last(fs, stack).Some?
    ensures DeepDistinct(Last(fs, stack).value)
    decreases |stack|
  {
    if |stack| > 0 {
      var i := FirstMatch(fs, stack[0]).value;
      LastDistinct(fs[i].sub, stack[1..]);
    }
  }

  lemma {:induction false} PutDistinct<S>(fs: seq<Field<S>>, stack: seq<string>, t: seq<Field<S>>)
    requires DeepDistinct(fs) && DeepDistinct(t) && Last(fs, stack).Some?
    ensures DeepDistinct(Put(fs, stack, t))
    decreases |stack|
  {
    if |stack| > 0 {
      var i := FirstMatch(fs, stack[0]).value;
      PutDistinct(fs[i].sub, stack[1..], t);
      var r := Put(fs, stack, t);
      assert Names(r) == Names(fs);
      assert forall j | 0 <= j < |fs| && j != i :: r[j] == fs[j];
    }
  }

  lemma {:induction false} LastWellKinded<S>(fs: seq<Field<S>>, stack: seq<string>)
    requires WellKinded(fs) && Last(fs, stack).Some?
    ensures WellKinded(Last(fs, stack).value)
    decreases |stack|
  {
    if |stack| > 0 {
      var i := FirstMatch(fs, stack[0]).value;
      LastWellKinded(fs[i].sub, stack[1..]);
    }
  }

  lemma {:induction false} PutWellKinded<S>(fs: seq<Field<S>>, stack: seq<string>, t: seq<Field<S>>)
    requires WellKinded(fs) && WellKinded(t) && Last(fs, stack).Some?
    ensures WellKinded(Put(fs, stack, t))
    decreases |stack|
  {
    if |stack| > 0 {
      var i := FirstMatch(fs, stack[0]).value;
      PutWellKinded(fs[i].sub, stack[1..], t);
      var r := Put(fs, stack, t);
      assert forall j | 0 <= j < |fs| && j != i :: r[j] == fs[j];
    }
  }

  // ---------------------------------------------------------------------------
  // Rendering

  /** Reading a rendered tree back gives the tree, provided no leaf holds a group value. */
  lemma {:induction false} FromAttrsRender<S>(fs: seq<Field<S>>)
    requires WellKinded(fs)
    ensures FromAttrs(Render(fs)) == fs
    decreases fs
  {
    if |fs| > 0 {
      var out := Render(fs);
      assert out[1..] == Render(fs[1..]);
      FromAttrsRender(fs[1..]);
      if fs[0].Node? {
        FromAttrsRender(fs[0].sub);
      }
    }
  }

  /** Rendering the tree an attribute batch describes gives the batch back. */
  lemma {:induction false} RenderFromAttrs<S>(attrs: seq<Slog.Attr<S>>)
    ensures Render(FromAttrs(attrs)) == attrs
    decreases attrs
  {
    if |attrs| > 0 {
      var fs := FromAttrs(attrs);
      var a := attrs[0];
      assert fs[1..] == FromAttrs(attrs[1..]);
      RenderFromAttrs(attrs[1..]);
      if a.value.IsGroup() {
        RenderFromAttrs(a.value.attrs);
        assert FromAttr(a) == Node(a.key, FromAttrs(a.value.attrs));
      } else {
        assert FromAttr(a) == Leaf(a.key, a.value);
      }
      assert LogValue(fs[0]) == a.value;
      assert Render(fs) == [Slog.Attr(fs[0].name, LogValue(fs[0]))] + Render(fs[1..]);
    }
  }

  /** Keys that are all new and pairwise distinct (at every depth) are appended as the
      batch describes them: nothing is replaced or merged. */
  lemma {:induction false} MergeAllFresh<S>(fs: seq<Field<S>>, attrs: seq<Slog.Attr<S>>)
    requires DeepDistinctAttrs(attrs)
    requires forall k | k in Keys(attrs) :: k !in Names(fs)
    ensures MergeAll(fs, attrs) == fs + FromAttrs(attrs)
    decreases attrs
  {
    if |attrs| > 0 {
      var a, rest := attrs[0], attrs[1..];
      var f := FromAttr(a);
      assert MergeAll(fs, attrs) == MergeAll(MergeAttr(fs, a), rest);
      FreshTail(fs, attrs);
      MergeAttrFresh(fs, a);
      NamesSnoc(fs, f);
      MergeAllFresh(fs + [f], rest);
      FromAttrsCons(attrs);
      AppendAssoc(fs, [f], FromAttrs(rest));
    }
  }

  // Proof helpers for MergeAllFresh. Each restates one unfolding step as its own
  // lemma, so that the induction step sees it without the whole sequence theory.

  lemma FromAttrsCons<S>(attrs: seq<Slog.Attr<S>>)
    requires |attrs| > 0
    ensures FromAttrs(attrs) == [FromAttr(attrs[0])] + FromAttrs(attrs[1..])
  {
  }

  lemma AppendAssoc<T>(a: seq<T>, b: seq<T>, c: seq<T>)
    ensures a + b + c == a + (b + c)
  {
  }

  lemma NamesSnoc<S>(fs: seq<Field<S>>, f: Field<S>)
    ensures Names(fs + [f]) == Names(fs) + [f.name]
  {
  }

  lemma {:induction false} MergeAttrFresh<S>(fs: seq<Field<S>>, a: Slog.Attr<S>)
    requires a.key !in Names(fs)
    requires a.value.IsGroup() ==> DeepDistinctAttrs(a.value.attrs)
    ensures MergeAttr(fs, a) == fs + [FromAttr(a)]
    decreases a
  {
    if a.value.IsGroup() {
      MergeAllFresh([], a.value.attrs);
      assert [] + FromAttrs(a.value.attrs) == FromAttrs(a.value.attrs);
    }
  }

  /** The rest of a fresh batch stays fresh once its first attribute is appended. */
  lemma FreshTail<S>(fs: seq<Field<S>>, attrs: seq<Slog.Attr<S>>)
    requires |attrs| > 0 && DeepDistinctAttrs(attrs)
    requires forall k | k in Keys(attrs) :: k !in Names(fs)
    ensures attrs[0].key !in Names(fs)
    ensures attrs[0].value.IsGroup() ==> DeepDistinctAttrs(attrs[0].value.attrs)
    ensures DeepDistinctAttrs(attrs[1..])
    ensures forall k | k in Keys(attrs[1..]) :: k !in Names(fs) + [attrs[0].key]
  {
    var rest := attrs[1..];
    assert Keys(attrs)[0] == attrs[0].key;
    assert Keys(rest) == Keys(attrs)[1..];
    assert attrs[0].key !in Keys(rest);
    forall i | 0 <= i < |rest| && rest[i].value.IsGroup() ensures DeepDistinctAttrs(rest[i].value.attrs) {
      assert rest[i] == attrs[i + 1];
    }
  }

  /** Rendering an appended entry appends its attribute. */
  lemma RenderSnoc<S>(fs: seq<Field<S>>, f: Field<S>)
    ensures Render(fs + [f]) == Render(fs) + [Slog.Attr(f.name, LogValue(f))]
  {
    var l, r := Render(fs + [f]), Render(fs) + [Slog.Attr(f.name, LogValue(f))];
    assert |l| == |r|;
    forall k | 0 <= k < |l| ensures l[k] == r[k] {
      if k < |fs| {
        assert (fs + [f])[k] == fs[k];
      }
    }
  }

  /** Merging a duplicate-free batch into an empty group and rendering it gives the
      batch back, in order. */
  lemma RenderMergeIntoEmpty<S>(attrs: seq<Slog.Attr<S>>)
    requires DeepDistinctAttrs(attrs)
    ensures Render(MergeAll([], attrs)) == attrs
  {
    MergeAllFresh([], attrs);
    assert [] + FromAttrs(attrs) == FromAttrs(attrs);
    RenderFromAttrs(attrs);
  }
}
