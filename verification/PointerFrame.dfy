/**
 What Create leaves alone, what it changes and what it adds, over all paths of the tree before
 and after.
 */
module PointerFrame {
  import opened ByteStrings
  import opened JsonDocument
  import opened JsonPointer

  // ---- The way of a pointer through the old tree ----

  /** The value must become a container of another type for this token. */
  predicate Retypes(v: JValue, t: Token)
  {
    if t.index == INVALID_INDEX then !v.JObject? && !(v.JArray? && IsDash(t)) else !v.JArray? && !v.JObject?
  }

  /** Every step of the path is one that the pointer takes. */
  predicate OnWay(v: JValue, tokens: seq<Token>, path: seq<nat>)
    requires IsPath(v, path)
    decreases |path|
  {
    path == []
    || (tokens != [] && Resolve(v, tokens[0]) == Some(path[0]) && OnWay(Child(v, path[0]), tokens[1..], path[1..]))
  }

  /** The path runs through a value that the pointer retypes. */
  predicate Lost(v: JValue, tokens: seq<Token>, path: seq<nat>)
    requires IsPath(v, path)
    decreases |path|
  {
    && path != [] && tokens != []
    && (Retypes(v, tokens[0])
        || (Resolve(v, tokens[0]) == Some(path[0]) && Lost(Child(v, path[0]), tokens[1..], path[1..])))
  }

  function NameOf(v: JValue, i: nat): Option<Bytes>
    requires i < Size(v)
  {
    if v.JObject? then Some(v.members[i].name) else None
  }

  /** The path is one of both trees, through arrays and objects alike, by the same names. */
  predicate SameWay(v: JValue, w: JValue, path: seq<nat>)
    requires IsPath(v, path)
    decreases |path|
  {
    path == []
    || (path[0] < Size(w) && NameOf(v, path[0]) == NameOf(w, path[0])
        && SameWay(Child(v, path[0]), Child(w, path[0]), path[1..]))
  }

  lemma {:induction false} SameWayIsPath(v: JValue, w: JValue, path: seq<nat>)
    requires IsPath(v, path) && SameWay(v, w, path)
    ensures IsPath(w, path)
    decreases |path|
  {
    if path != [] {
      SameWayIsPath(Child(v, path[0]), Child(w, path[0]), path[1..]);
    }
  }

  lemma {:induction false} SameWayItself(v: JValue, path: seq<nat>)
    requires IsPath(v, path)
    ensures SameWay(v, v, path)
    decreases |path|
  {
    if path != [] {
      SameWayItself(Child(v, path[0]), path[1..]);
    }
  }

  // ---- One token ----

  /** The children that are still there. */
  function Left(v: JValue, t: Token): nat { if Retypes(v, t) then 0 else Size(v) }

  /** All children stay where they are, unless the value is retyped; those that are new are the
      named one, and nulls before an index. */
  lemma GrowFrame(v: JValue, t: Token)
    requires IsDash(t) ==> t.index == INVALID_INDEX
    ensures var g := Grow(v, t);
            && Left(v, t) <= Size(g.value)
            && (forall i :: 0 <= i < Left(v, t) ==> Child(g.value, i) == Child(v, i) && NameOf(g.value, i) == NameOf(v, i))
            && (forall i :: Left(v, t) <= i < Size(g.value) && i != g.child ==>
                  Child(g.value, i) == JNull && g.value.JArray? && i < g.child)
            && (g.exist ==> !Retypes(v, t)) && (!g.exist ==> g.child >= Left(v, t))
            && (if Retypes(v, t) then (if t.index == INVALID_INDEX then g.value.JObject? else g.value.JArray?)
                else g.value.JArray? == v.JArray? && g.value.JObject? == v.JObject?)
  {
    GrowResolves(v, t);
  }

  lemma ChildSet(v: JValue, i: nat, c: JValue, j: nat)
    requires i < Size(v) && j < Size(v)
    ensures Child(SetChild(v, i, c), j) == (if j == i then c else Child(v, j))
    ensures NameOf(SetChild(v, i, c), j) == NameOf(v, j)
  {
  }

  lemma SameType(v: JValue, i: nat, c: JValue)
    requires i < Size(v)
    ensures SetChild(v, i, c).JArray? == v.JArray?
  {
  }

  // ---- The frame of Create ----

  /** A path of the old tree that does not run through a retyped value is a path of the new one,
      by the same names.  The value there is the same, unless the pointer goes on from it. */
  lemma {:induction false} CreateKeeps(v: JValue, tokens: seq<Token>, path: seq<nat>)
    requires DashHasNoIndex(tokens) && IsPath(v, path) && !Lost(v, tokens, path)
    ensures var r := Create(v, tokens);
            && SameWay(v, r.root, path) && IsPath(r.root, path)
            && (!OnWay(v, tokens, path) || |path| >= |tokens| ==> ValueAt(r.root, path) == ValueAt(v, path))
    decreases |tokens|
  {
    hide Grow, Resolve, SetChild, NameOf, Retypes;
    SameWayItself(v, path);
    if tokens != [] && path != [] {
      var t, i := tokens[0], path[0];
      var g := Grow(v, t);
      assert t in tokens && forall u <- tokens[1..] :: u in tokens;
      GrowResolves(v, t);
      GrowFrame(v, t);
      var below := Create(Child(g.value, g.child), tokens[1..]);
      ChildSet(g.value, g.child, below.root, i);
      SameWayItself(Child(v, i), path[1..]);
      if i == g.child {
        assert g.exist;
        CreateKeeps(Child(v, i), tokens[1..], path[1..]);
      }
    }
  }

  /** A value that the pointer goes on from keeps its type, unless it is retyped: then it becomes
      an object for a name, and an array for an index. */
  lemma {:induction false} CreateTypes(v: JValue, tokens: seq<Token>, path: seq<nat>)
    requires DashHasNoIndex(tokens) && IsPath(v, path) && OnWay(v, tokens, path) && |path| < |tokens|
    ensures var r, t := Create(v, tokens), tokens[|path|];
            && IsPath(r.root, path)
            && var old', new' := ValueAt(v, path), ValueAt(r.root, path);
               if Retypes(old', t) then (if t.index == INVALID_INDEX then new'.JObject? else new'.JArray?)
               else new'.JArray? == old'.JArray? && new'.JObject? == old'.JObject?
    decreases |tokens|
  {
    hide Grow, Resolve, NameOf, Retypes;
    var t := tokens[0];
    var g := Grow(v, t);
    assert t in tokens && forall u <- tokens[1..] :: u in tokens;
    GrowResolves(v, t);
    GrowFrame(v, t);
    if path != [] {
      CreateTypes(Child(v, path[0]), tokens[1..], path[1..]);
      assert tokens[|path|] == tokens[1..][|path[1..]|];
    }
  }

  /** A null in an array on the created path, before the index that the path takes. */
  predicate Padding(w: JValue, created: seq<nat>, path: seq<nat>)
    requires IsPath(w, path)
    decreases |path|
  {
    && path != [] && created != []
    && if |path| == 1 then w.JArray? && path[0] < created[0] && Child(w, path[0]) == JNull
       else path[0] == created[0] && Padding(Child(w, path[0]), created[1..], path[1..])
  }

  /** Nothing else is added: a path of the new tree is a path of the old one that was not lost, or
      part of the created path, or a null before a created index. */
  lemma {:induction false} CreateAddsNothingElse(v: JValue, tokens: seq<Token>, path: seq<nat>)
    requires DashHasNoIndex(tokens) && IsPath(Create(v, tokens).root, path)
    ensures var r := Create(v, tokens);
            (IsPath(v, path) && !Lost(v, tokens, path)) || path <= r.path || Padding(r.root, r.path, path)
    decreases |tokens|
  {
    hide Grow, Resolve, SetChild, NameOf, Retypes;
    if tokens != [] && path != [] {
      var t, i, rest := tokens[0], path[0], path[1..];
      var r, g := Create(v, tokens), Grow(v, t);
      assert t in tokens && forall u <- tokens[1..] :: u in tokens;
      GrowResolves(v, t);
      GrowFrame(v, t);
      var below := Create(Child(g.value, g.child), tokens[1..]);
      ChildSet(g.value, g.child, below.root, i);
      assert r.root.JArray? == g.value.JArray? by {
        SameType(g.value, g.child, below.root);
      }
      assert r.path[1..] == below.path && path == [i] + rest;
      if i == g.child {
        CreateAddsNothingElse(Child(g.value, g.child), tokens[1..], rest);
        if !g.exist && IsPath(JNull, rest) {
          NullPath(rest);
          assert path == [i] && r.path[..1] == path;
        }
      } else if i >= Left(v, t) {
        NullPath(rest);
        assert path == [i];
      }
    }
  }
}
