/** The attribute tree of internal/tree on the heap: a group owns a sequence of
    entries, and an entry owns either a scalar or a sub-group. Every group keeps a
    ghost footprint `Repr` (itself, its entries and everything below them) and a ghost
    `Contents`, the value-level tree of module TreeModel it stands for; every method
    is proved to act on `Contents` as the corresponding TreeModel function says. */
module Tree {
  import Slog
  import opened Wrappers
  import TreeModel
  import TreeProperties

  /** One entry of a group (value.go `value`): a name and exactly one of a scalar `v`
      or a sub-group `g`. */
  class Entry<S> {
    var name: string
    var v: Slog.Value<S>
    var g: Group?<S>

    /** The objects the sub-group owns; none for a scalar entry. */
    ghost function Sub(): set<object>
      reads this, g
    {
      if g == null then {} else g.Repr
    }

    /** A scalar entry never holds a group value; a group entry keeps the zero value
        in `v` and owns a valid sub-group that does not contain the entry. */
    ghost predicate Valid()
      reads this, g, Sub()
      decreases Sub(), 2
    {
      if g == null then !v.IsGroup()
      else v == Slog.Zero && this !in g.Repr && g.Valid()
    }

    /** The value-level entry this one stands for. */
    ghost function Model(): TreeModel.Field<S>
      reads this, g
    {
      if g == null then TreeModel.Leaf(name, v) else TreeModel.Node(name, g.Contents)
    }

    /** The composite literal `&value{name: ..., v: ..., g: ...}`. */
    constructor(name: string, v: Slog.Value<S>, g: Group?<S>)
      ensures this.name == name && this.v == v && this.g == g
    {
      this.name := name;
      this.v := v;
      this.g := g;
    }

    /** value.LogValue: the sub-group's rendering as a group value, or the scalar. */
    method LogValue() returns (val: Slog.Value<S>)
      requires Valid()
      ensures val == TreeModel.LogValue(Model())
      ensures g != null ==> val == Slog.GroupValue(TreeModel.Render(g.Contents))
      ensures g == null ==> val == v
      decreases Sub(), 1
    {
      if g != null {
        var out := g.Render();
        return Slog.GroupValue(out);
      }
      return v;
    }

    /** value.clone: a new entry with the same name that shares the scalar, or owns a
        fresh deep copy of the sub-group. */
    method Clone() returns (n: Entry<S>)
      requires Valid()
      ensures fresh(n) && fresh(n.Sub())
      ensures n.Valid() && n.Model() == Model()
      ensures n.name == name
      ensures g == null ==> n.g == null && n.v == v
      ensures g != null ==> n.g != null && n.v == Slog.Zero
      decreases Sub(), 1
    {
      n := new Entry(name, Slog.Zero, null);
      if g != null {
        var c := g.Clone();
        n.g := c;
        return;
      }
      n.v := v;
    }
  }

  /** A group (group.go `Group`): an ordered sequence of entries. */
  class Group<S> {
    var vs: seq<Entry<S>>
    ghost var Repr: set<object>
    ghost var Contents: seq<TreeModel.Field<S>>

    /** Each entry is valid and stands for the matching element of Contents; no two
        entries share an object, and no entry reaches back into this group. */
    ghost predicate Valid()
      reads this, Repr
      decreases Repr, 1
    {
      && this in Repr
      && |Contents| == |vs|
      && (forall i | 0 <= i < |vs| ::
            && vs[i] in Repr
            && (vs[i].g != null ==> vs[i].g in Repr)
            && vs[i].Sub() <= Repr
            && this !in vs[i].Sub()
            && vs[i].Valid()
            && Contents[i] == vs[i].Model())
      && (forall i, j | 0 <= i < |vs| && 0 <= j < |vs| && i != j ::
            vs[i] != vs[j] && vs[i] !in vs[j].Sub() && vs[i].Sub() !! vs[j].Sub())
    }

    /** `new(tree.Group)` and `&Group{vs: make([]*value, 0)}`: no entries. */
    constructor()
      ensures Valid() && fresh(Repr) && Contents == []
    {
      vs := [];
      Repr := {this};
      Contents := [];
    }

    /** Group.Render: one attribute per entry, in entry order. */
    method Render() returns (out: seq<Slog.Attr<S>>)
      requires Valid()
      ensures out == TreeModel.Render(Contents)
      decreases Repr, 0
    {
      var a := new Slog.Attr<S>[|vs|](_ => Slog.ZeroAttr());
      for i := 0 to |vs|
        invariant forall k | 0 <= k < i :: a[k] == Slog.Attr(Contents[k].name, TreeModel.LogValue(Contents[k]))
      {
        var val := vs[i].LogValue();
        a[i] := Slog.Attr(vs[i].name, val);
      }
      out := a[..];
    }

    /** Group.LogValue: the group value of the group's rendering. */
    method LogValue() returns (val: Slog.Value<S>)
      requires Valid()
      ensures val.IsGroup() && val.attrs == TreeModel.Render(Contents)
    {
      var out := Render();
      val := Slog.GroupValue(out);
    }

    /** `vs = append(vs, e)` for an entry that shares nothing with the group. */
    method Append(e: Entry<S>)
      requires Valid() && e.Valid()
      requires e !in Repr && e.Sub() !! Repr
      modifies this
      ensures Valid()
      ensures vs == old(vs) + [e]
      ensures Contents == old(Contents) + [e.Model()]
      ensures Repr == old(Repr) + {e} + e.Sub()
    {
      ghost var n := |vs|;
      vs := vs + [e];
      Repr := Repr + {e} + e.Sub();
      Contents := Contents + [e.Model()];
      forall i | 0 <= i < n
        ensures vs[i] == old(vs[i]) && vs[i].Valid() && Contents[i] == vs[i].Model()
      {
        EntryFrame(vs[i]);
      }
    }

    /** Group.Clone: a deep copy, sharing no object with the original. */
    method Clone() returns (n: Group<S>)
      requires Valid()
      ensures fresh(n.Repr) && n.Valid() && n.Contents == Contents
      decreases Repr, 0
    {
      n := new Group();
      for i := 0 to |vs|
        invariant fresh(n.Repr) && n.Valid() && n.Contents == Contents[..i]
      {
        var e := vs[i].Clone();
        n.Append(e);
      }
      assert Contents[..|vs|] == Contents;
    }

    /** `vs[m] = e` for an entry that shares nothing with the group. */
    method Replace(m: nat, e: Entry<S>)
      requires Valid() && e.Valid() && m < |vs|
      requires e !in Repr && e.Sub() !! Repr
      modifies this
      ensures Valid()
      ensures vs == old(vs)[m := e]
      ensures Contents == old(Contents)[m := e.Model()]
      ensures Repr == old(Repr) + {e} + e.Sub()
    {
      vs := vs[m := e];
      Repr := Repr + {e} + e.Sub();
      Contents := Contents[m := e.Model()];
      forall i | 0 <= i < |vs| && i != m
        ensures vs[i] == old(vs[i]) && vs[i].Valid() && Contents[i] == vs[i].Model()
      {
        EntryFrame(vs[i]);
      }
    }

    /** The scan of last: the index of the first entry with the name, if any. */
    method First(name: string) returns (m: Option<nat>)
      requires Valid()
      ensures m == TreeModel.FirstMatch(Contents, name)
    {
      var i := 0;
      while i < |vs|
        invariant 0 <= i <= |vs|
        invariant forall k | 0 <= k < i :: Contents[k].name != name
      {
        if vs[i].name == name {
          TreeModel.FirstMatchAt(Contents, name, i);
          return Some(i);
        }
        i := i + 1;
      }
      return None;
    }

    /** The scan of merge: the index of the last entry with the key, if any. */
    method MatchIndex(key: string) returns (found: Option<nat>)
      requires Valid()
      ensures found == TreeModel.LastMatch(Contents, key)
    {
      found := None;
      for i := 0 to |vs|
        invariant found == TreeModel.LastMatch(Contents[..i], key)
      {
        assert Contents[..i + 1][..i] == Contents[..i];
        if vs[i].name == key {
          found := Some(i);
        }
      }
      assert Contents[..|vs|] == Contents;
    }

    /** The body of merge once last has resolved the target (group.go lines 56-84):
        find the last entry with the key, then append, replace in place, or merge
        into the (possibly promoted) sub-group. */
    method MergeAttr(attr: Slog.Attr<S>)
      requires Valid()
      modifies Repr
      ensures Valid() && fresh(Repr - old(Repr))
      ensures Contents == TreeModel.MergeAttr(old(Contents), attr)
      decreases attr, 0, 0, 1
    {
      var found := MatchIndex(attr.key);
      if found.None? {
        AddEntry(attr);
      } else if !attr.value.IsGroup() {
        var e := new Entry(attr.key, attr.value, null);
        Replace(found.value, e);
      } else {
        MergeIntoEntry(found.value, attr);
      }
    }

    /** The no-match branch of merge: a new entry for the key goes at the end. */
    method AddEntry(attr: Slog.Attr<S>)
      requires Valid() && attr.key !in TreeModel.Names(Contents)
      modifies Repr
      ensures Valid() && fresh(Repr - old(Repr))
      ensures Contents == TreeModel.MergeAttr(old(Contents), attr)
      decreases attr, 0, 0, 0
    {
      ghost var fs := Contents;
      if !attr.value.IsGroup() {
        var e := new Entry(attr.key, attr.value, null);
        Append(e);
      } else {
        var ng := NewSubGroup(attr.value.attrs);
        var e := new Entry(attr.key, Slog.Zero, ng);
        assert e.Valid() && e.Model() == TreeModel.Node(attr.key, TreeModel.MergeAll([], attr.value.attrs));
        Append(e);
      }
    }

    /** `g := new(Group); g.Merge(nil, attrs...)`: a fresh group holding the batch. */
    static method NewSubGroup(attrs: seq<Slog.Attr<S>>) returns (ng: Group<S>)
      ensures fresh(ng.Repr) && ng.Valid() && ng.Contents == TreeModel.MergeAll([], attrs)
      decreases attrs, 1, 0, 1
    {
      ng := new Group();
      var ok := ng.Merge([], attrs);
      TreeProperties.MergeAtRoot([], attrs);
    }

    /** The group-onto-match branch of merge: the group is merged into the entry's
        sub-group, which is first made empty when the entry is scalar-kind. */
    method MergeIntoEntry(m: nat, attr: Slog.Attr<S>)
      requires Valid() && m < |Contents| && Contents[m].name == attr.key && attr.value.IsGroup()
      modifies Repr
      ensures Valid() && fresh(Repr - old(Repr))
      ensures Contents == old(Contents)[m := TreeModel.Node(attr.key, TreeModel.MergeAll(TreeModel.Promote(old(Contents)[m]), attr.value.attrs))]
      decreases attr, 0, 0, 0
    {
      ghost var sub := TreeModel.Promote(Contents[m]);
      if vs[m].g == null {
        var ng := new Group();
        var e := new Entry(attr.key, Slog.Zero, ng);
        Replace(m, e);
      }
      assert vs[m].name == attr.key && Contents[m].sub == sub;
      MergeChild(m, attr.value.attrs);
    }

    /** `vs[m].g.Merge(nil, attrs...)`: merge a batch into a group entry's sub-group. */
    method MergeChild(m: nat, attrs: seq<Slog.Attr<S>>)
      requires Valid() && m < |vs| && vs[m].g != null
      modifies Repr
      ensures Valid() && fresh(Repr - old(Repr))
      ensures Contents == old(Contents)[m := TreeModel.Node(old(vs[m].name), TreeModel.MergeAll(old(Contents[m].sub), attrs))]
      decreases attrs, 2, 0, 0
    {
      var c := vs[m].g;
      var ok := c.Merge([], attrs);
      TreeProperties.MergeAtRoot(old(Contents[m].sub), attrs);
      Repr := Repr + c.Repr;
      Contents := Contents[m := vs[m].Model()];
      assert Valid() by {
        forall j | 0 <= j < |vs| && j != m
          ensures vs[j].Valid() && vs[j].Model() == old(vs[j].Model()) && vs[j].Sub() == old(vs[j].Sub())
        {
          EntryFrame(vs[j]);
        }
        assert this !in c.Repr && vs[m] !in c.Repr;
        assert vs[m].Sub() == c.Repr && vs[m].Valid();
      }
    }

    /** merge(vs[i].g, stack, attr), the recursive step of the descent of merge. */
    method MergeUnder(i: nat, stack: seq<string>, attr: Slog.Attr<S>) returns (ok: bool)
      requires Valid() && i < |vs| && vs[i].g != null
      modifies Repr
      ensures ok <==> TreeModel.MergeOne(old(Contents[i].sub), stack, attr).Some?
      ensures ok ==> Valid() && fresh(Repr - old(Repr))
      ensures ok ==> Contents == old(Contents)[i := TreeModel.Node(old(vs[i].name), TreeModel.MergeOne(old(Contents[i].sub), stack, attr).value)]
      decreases attr, 0, |stack|, 3
    {
      var c := vs[i].g;
      ghost var r := TreeModel.MergeOne(Contents[i].sub, stack, attr);
      ok := MergeOne(c, stack, attr);
      if !ok {
        return;
      }
      assert c.Valid() && c.Contents == r.value;
      Repr := Repr + c.Repr;
      Contents := Contents[i := vs[i].Model()];
      assert Valid() by {
        forall j | 0 <= j < |vs| && j != i
          ensures vs[j].Valid() && vs[j].Model() == old(vs[j].Model()) && vs[j].Sub() == old(vs[j].Sub())
        {
          EntryFrame(vs[j]);
        }
        assert this !in c.Repr && vs[i] !in c.Repr;
        assert vs[i].Sub() == c.Repr && vs[i].Valid();
      }
    }

    /** Group.Merge: merge each attribute under the stack in turn; false where the
        source panics because the stack does not resolve. */
    method Merge(stack: seq<string>, attrs: seq<Slog.Attr<S>>) returns (ok: bool)
      requires Valid()
      modifies Repr
      ensures ok <==> TreeModel.MergeAt(old(Contents), stack, attrs).Some?
      ensures ok ==> Valid() && fresh(Repr - old(Repr))
      ensures ok ==> Contents == TreeModel.MergeAt(old(Contents), stack, attrs).value
      decreases attrs, 1, 0, 0
    {
      for i := 0 to |attrs|
        invariant Valid() && fresh(Repr - old(Repr))
        invariant TreeModel.MergeAt(old(Contents), stack, attrs) == TreeModel.MergeAt(Contents, stack, attrs[i..])
      {
        assert attrs[i..][0] == attrs[i] && attrs[i..][1..] == attrs[i + 1..];
        var r := MergeOne(this, stack, attrs[i]);
        if !r {
          return false;
        }
      }
      assert attrs[|attrs|..] == [];
      return true;
    }
  }

  /** An entry none of whose objects changed is still valid and stands for the same
      value-level entry. */
  twostate lemma EntryFrame<S>(e: Entry<S>)
    requires old(e.Valid()) && unchanged(e) && unchanged(old(e.Sub()))
    ensures e.Valid() && e.Model() == old(e.Model()) && e.Sub() == old(e.Sub())
  {
  }

  /** The scalar field of an entry never holds a group value (value.go line 7), so the
      tree a valid group stands for is well kinded at every depth. */
  lemma ValidWellKinded<S>(g: Group<S>)
    requires g.Valid()
    ensures TreeModel.WellKinded(g.Contents)
    decreases g.Repr
  {
    forall i | 0 <= i < |g.vs| && g.vs[i].g != null
      ensures TreeModel.WellKinded(g.vs[i].g.Contents)
    {
      ValidWellKinded(g.vs[i].g);
    }
  }

  /** last(in, stack): the group the stack leads to, descending into the first entry
      with each name; null where the source panics or hands a nil group on. */
  method Last<S>(grp: Group?<S>, stack: seq<string>) returns (l: Group?<S>)
    requires grp != null ==> grp.Valid()
    ensures grp == null ==> l == null
    ensures grp != null ==> (l != null <==> TreeModel.Last(grp.Contents, stack).Some?)
    ensures grp != null && l != null ==>
      l.Valid() && l.Repr <= grp.Repr && l.Contents == TreeModel.Last(grp.Contents, stack).value
    decreases |stack|
  {
    if |stack| == 0 {
      return grp;
    }
    if grp == null {
      return null;
    }
    var m := grp.First(stack[0]);
    if m.None? {
      return null;
    }
    l := Last(grp.vs[m.value].g, stack[1..]);
  }

  /** merge(in, stack, attr): resolve the stack and fold the attribute into the group
      it leads to. The descent is that of last; the ghost state of every group on the
      path is brought up to date on the way back. */
  method MergeOne<S>(grp: Group<S>, stack: seq<string>, attr: Slog.Attr<S>) returns (ok: bool)
    requires grp.Valid()
    modifies grp.Repr
    ensures ok <==> TreeModel.MergeOne(old(grp.Contents), stack, attr).Some?
    ensures ok ==> grp.Valid() && fresh(grp.Repr - old(grp.Repr))
    ensures ok ==> grp.Contents == TreeModel.MergeOne(old(grp.Contents), stack, attr).value
    decreases attr, 0, |stack|, 2
  {
    if |stack| == 0 {
      grp.MergeAttr(attr);
      return true;
    }
    ghost var fs := grp.Contents;
    var m := grp.First(stack[0]);
    if m.None? {
      return false;
    }
    var i := m.value;
    var c := grp.vs[i].g;
    if c == null {
      assert fs[i].Leaf? && TreeModel.Last(fs, stack).None?;
      return false;
    }
    assert fs[i] == TreeModel.Node(grp.vs[i].name, c.Contents);
    assert TreeModel.Last(fs, stack) == TreeModel.Last(c.Contents, stack[1..]);
    ok := grp.MergeUnder(i, stack[1..], attr);
  }
}
