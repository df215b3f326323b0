/**
 Resolving a JSON Pointer: Get walks to an existing value, Create makes the missing ones.
 */
module JsonPointer {
  import opened ByteStrings
  import opened JsonDocument

  const INVALID_INDEX: nat := 0xFFFF_FFFF

  /** A reference token: its name, and the array index it can stand for. */
  datatype Token = Token(name: Bytes, index: nat)

  predicate IsDash(t: Token) { t.name == [Ch('-')] }

  /** As Parse makes them: "-" is not a number. */
  predicate DashHasNoIndex(tokens: seq<Token>) { forall t <- tokens :: IsDash(t) ==> t.index == INVALID_INDEX }

  // ---- Children by place ----

  /** The first member of that name, from `i` on. */
  function FindMember(ms: seq<Member>, name: Bytes, i: nat): (r: Option<nat>)
    requires i <= |ms|
    ensures r.Some? ==> i <= r.value < |ms| && ms[r.value].name == name
    ensures r.Some? ==> forall j :: i <= j < r.value ==> ms[j].name != name
    ensures r.None? ==> forall j :: i <= j < |ms| ==> ms[j].name != name
    decreases |ms| - i
  {
    if i == |ms| then None else if ms[i].name == name then Some(i) else FindMember(ms, name, i + 1)
  }

  function Size(v: JValue): nat
  {
    match v
    case JArray(es) => |es|
    case JObject(ms) => |ms|
    case _ => 0
  }

  function Child(v: JValue, i: nat): JValue
    requires i < Size(v)
  {
    if v.JArray? then v.elements[i] else v.members[i].value
  }

  function SetChild(v: JValue, i: nat, c: JValue): (r: JValue)
    requires i < Size(v)
    ensures Size(r) == Size(v) && Child(r, i) == c
  {
    if v.JArray? then JArray(v.elements[i := c]) else JObject(v.members[i := v.members[i].(value := c)])
  }

  /** A value inside a tree, by the places on the way to it. */
  predicate IsPath(v: JValue, path: seq<nat>)
    decreases |path|
  {
    path == [] || (path[0] < Size(v) && IsPath(Child(v, path[0]), path[1..]))
  }

  function ValueAt(v: JValue, path: seq<nat>): JValue
    requires IsPath(v, path)
    decreases |path|
  {
    if path == [] then v else ValueAt(Child(v, path[0]), path[1..])
  }

  function SetAt(v: JValue, path: seq<nat>, c: JValue): JValue
    requires IsPath(v, path)
    decreases |path|
  {
    if path == [] then c else SetChild(v, path[0], SetAt(Child(v, path[0]), path[1..], c))
  }

  // ---- Get ----

  /** The child that a token names, where it exists. */
  function Resolve(v: JValue, t: Token): (r: Option<nat>)
    ensures r.Some? ==> r.value < Size(v)
  {
    match v
    case JObject(ms) => FindMember(ms, t.name, 0)
    case JArray(es) => if t.index == INVALID_INDEX || t.index >= |es| then None else Some(t.index)
    case _ => None
  }

  /** The path of the value, or None if some token does not resolve. */
  function Get(v: JValue, tokens: seq<Token>): (r: Option<seq<nat>>)
    ensures r.Some? ==> IsPath(v, r.value)
    decreases |tokens|
  {
    if tokens == [] then Some([])
    else
      match Resolve(v, tokens[0])
      case None => None
      case Some(i) =>
        match Get(Child(v, i), tokens[1..])
        case None => None
        case Some(path) =>
          assert ([i] + path)[1..] == path;
          Some([i] + path)
  }

  // ---- Create ----

  function Nulls(n: nat): (r: seq<JValue>)
    ensures |r| == n
  {
    seq(n, i => JNull)
  }

  /** A value after one token of Create: the child it names is there now. */
  datatype Grown = Grown(value: JValue, child: nat, exist: bool)

  /** The type that a value takes for a token. */
  function Retyped(v: JValue, t: Token): JValue
  {
    if t.index == INVALID_INDEX then (if v.JObject? then v else JObject([]))
    else if v.JArray? || v.JObject? then v
    else JArray([])
  }

  function Grow(v: JValue, t: Token): (r: Grown)
    ensures r.child < Size(r.value)
  {
    if v.JArray? && IsDash(t) then Grown(JArray(v.elements + [JNull]), |v.elements|, false)
    else
      var w := Retyped(v, t);
      if w.JArray? then
        if t.index >= |w.elements| then
          Grown(JArray(w.elements + Nulls(t.index + 1 - |w.elements|)), t.index, false)
        else Grown(w, t.index, true)
      else
        match FindMember(w.members, t.name, 0)
        case None => Grown(JObject(w.members + [Member(t.name, JNull)]), |w.members|, false)
        case Some(i) => Grown(w, i, true)
  }

  datatype Created = Created(root: JValue, path: seq<nat>, exist: bool)

  function Create(v: JValue, tokens: seq<Token>): (r: Created)
    ensures IsPath(r.root, r.path)
    decreases |tokens|
  {
    if tokens == [] then Created(v, [], true)
    else
      var g := Grow(v, tokens[0]);
      var below := Create(Child(g.value, g.child), tokens[1..]);
      assert ([g.child] + below.path)[1..] == below.path;
      Created(SetChild(g.value, g.child, below.root), [g.child] + below.path, g.exist && below.exist)
  }

  /** Create applies "-" to an array on its way. */
  predicate AppliesDash(v: JValue, tokens: seq<Token>)
    decreases |tokens|
  {
    tokens != [] &&
    ((v.JArray? && IsDash(tokens[0]))
     || var g := Grow(v, tokens[0]); AppliesDash(Child(g.value, g.child), tokens[1..]))
  }

  // ---- What Create promises ----

  lemma GrowResolves(v: JValue, t: Token)
    requires IsDash(t) ==> t.index == INVALID_INDEX
    ensures var g := Grow(v, t);
            && (g.exist <==> Resolve(v, t).Some?)
            && (g.exist ==> g.value == v && Resolve(v, t) == Some(g.child))
            && (!g.exist ==> Child(g.value, g.child) == JNull)
            && (!(v.JArray? && IsDash(t)) ==> Resolve(g.value, t) == Some(g.child))
            && (v.JArray? && IsDash(t) ==> Resolve(g.value, t) == None)
  {
    var g := Grow(v, t);
    var w := Retyped(v, t);
    if !(v.JArray? && IsDash(t)) && w.JObject? && FindMember(w.members, t.name, 0).None? {
      FoundLast(w.members, t.name, 0);
    }
  }

  lemma {:induction false} FoundLast(ms: seq<Member>, name: Bytes, i: nat)
    requires i <= |ms| && FindMember(ms, name, i).None?
    ensures FindMember(ms + [Member(name, JNull)], name, i) == Some(|ms|)
    decreases |ms| - i
  {
    if i < |ms| {
      FoundLast(ms, name, i + 1);
    }
  }

  /** Setting a child does not change where a token leads. */
  lemma ResolveKept(v: JValue, i: nat, c: JValue, t: Token)
    requires i < Size(v)
    ensures Resolve(SetChild(v, i, c), t) == Resolve(v, t)
  {
    if v.JObject? {
      SameNames(v.members, SetChild(v, i, c).members, t.name, 0);
    }
  }

  lemma {:induction false} SameNames(a: seq<Member>, b: seq<Member>, name: Bytes, i: nat)
    requires |a| == |b| && i <= |a| && forall k :: 0 <= k < |a| ==> a[k].name == b[k].name
    ensures FindMember(a, name, i) == FindMember(b, name, i)
    decreases |a| - i
  {
    if i < |a| {
      SameNames(a, b, name, i + 1);
    }
  }

  lemma SameChild(v: JValue, i: nat)
    requires i < Size(v)
    ensures SetChild(v, i, Child(v, i)) == v
  {
    if v.JArray? {
      assert v.elements[i := v.elements[i]] == v.elements;
    } else {
      assert v.members[i := v.members[i]] == v.members;
    }
  }

  /** Create reports an existing value exactly if Get resolves the pointer; the tree is then
      unchanged and the value is the one Get finds; otherwise a null is created. */
  lemma {:induction false} CreateOrGet(v: JValue, tokens: seq<Token>)
    requires DashHasNoIndex(tokens)
    ensures var r := Create(v, tokens);
            && (r.exist <==> Get(v, tokens).Some?)
            && (r.exist ==> r.root == v && Get(v, tokens) == Some(r.path))
            && (!r.exist ==> ValueAt(r.root, r.path) == JNull)
    decreases |tokens|
  {
    hide Grow, Resolve, SetChild;
    if tokens != [] {
      var t := tokens[0];
      var g := Grow(v, t);
      assert t in tokens && forall u <- tokens[1..] :: u in tokens;
      GrowResolves(v, t);
      var child := Child(g.value, g.child);
      var below := Create(child, tokens[1..]);
      CreateOrGet(child, tokens[1..]);
      SameChild(g.value, g.child);
      assert ([g.child] + below.path)[1..] == below.path;
      if !g.exist && below.exist {
        NullPath(below.path);
      }
    }
  }

  /** Nothing is inside a null. */
  lemma NullPath(path: seq<nat>)
    requires IsPath(JNull, path)
    ensures path == [] && ValueAt(JNull, path) == JNull
  {
  }

  /** After Create, Get reaches the created value, unless "-" was applied to an array; then it
      reaches nothing. */
  lemma {:induction false} GetAfterCreate(v: JValue, tokens: seq<Token>)
    requires DashHasNoIndex(tokens)
    ensures var r := Create(v, tokens); Get(r.root, tokens) == if AppliesDash(v, tokens) then None else Some(r.path)
    decreases |tokens|
  {
    hide Grow, Resolve, SetChild;
    if tokens != [] {
      var t := tokens[0];
      var g := Grow(v, t);
      assert t in tokens && forall u <- tokens[1..] :: u in tokens;
      GrowResolves(v, t);
      var below := Create(Child(g.value, g.child), tokens[1..]);
      ResolveKept(g.value, g.child, below.root, t);
      GetAfterCreate(Child(g.value, g.child), tokens[1..]);
    }
  }

  // ---- The loops ----

  /** Writing at a path, and reading there. */
  lemma {:induction false} SetThenGet(v: JValue, path: seq<nat>, c: JValue)
    requires IsPath(v, path)
    ensures var w := SetAt(v, path, c);
            IsPath(w, path) && ValueAt(w, path) == c && forall d :: SetAt(w, path, d) == SetAt(v, path, d)
    decreases |path|
  {
    if path != [] {
      SetThenGet(Child(v, path[0]), path[1..], c);
      forall a: JValue, b: JValue
        ensures SetChild(SetChild(v, path[0], a), path[0], b) == SetChild(v, path[0], b)
      {
      }
    }
  }

  /** One step further down. */
  lemma {:induction false} LongerPath(v: JValue, path: seq<nat>, i: nat)
    requires IsPath(v, path) && i < Size(ValueAt(v, path))
    ensures IsPath(v, path + [i]) && ValueAt(v, path + [i]) == Child(ValueAt(v, path), i)
    ensures forall c :: SetAt(v, path + [i], c) == SetAt(v, path, SetChild(ValueAt(v, path), i, c))
    decreases |path|
  {
    var longer := path + [i];
    if path == [] {
      assert longer[1..] == [];
    } else {
      assert longer[1..] == path[1..] + [i];
      LongerPath(Child(v, path[0]), path[1..], i);
    }
  }

  /** The loop of Create: the tree is changed in place along the way. */
  method CreateValue(root: JValue, tokens: seq<Token>) returns (r: Created)
    ensures r == Create(root, tokens)
  {
    hide Grow, SetChild, Child, Size, Create, SetAt, ValueAt, IsPath;
    var tree, path, exist := root, [], true;
    var i := 0;
    assert tokens[0..] == tokens && [] + Create(root, tokens).path == Create(root, tokens).path;
    AtRoot(root);
    while i < |tokens|
      invariant 0 <= i <= |tokens| && IsPath(tree, path)
      invariant var rest := Create(ValueAt(tree, path), tokens[i..]);
                Create(root, tokens) == Created(SetAt(tree, path, rest.root), path + rest.path, exist && rest.exist)
    {
      var g := Grow(ValueAt(tree, path), tokens[i]);
      CreateStep(tree, path, tokens, i);
      SetThenGet(tree, path, g.value);
      tree := SetAt(tree, path, g.value);
      LongerPath(tree, path, g.child);
      path, exist, i := path + [g.child], exist && g.exist, i + 1;
    }
    assert tokens[i..] == [] && path + [] == path;
    AtRoot(ValueAt(tree, path));
    SetSame(tree, path);
    r := Created(tree, path, exist);
  }

  lemma AtRoot(v: JValue)
    ensures IsPath(v, []) && ValueAt(v, []) == v && Create(v, []) == Created(v, [], true)
    ensures forall c :: SetAt(v, [], c) == c
  {
  }

  /** One token further: the tree grown at `path`, and the rest of Create below it. */
  lemma CreateStep(tree: JValue, path: seq<nat>, tokens: seq<Token>, i: nat)
    requires IsPath(tree, path) && i < |tokens|
    ensures var g := Grow(ValueAt(tree, path), tokens[i]);
            var grown := SetAt(tree, path, g.value);
            && IsPath(grown, path) && ValueAt(grown, path) == g.value && IsPath(grown, path + [g.child])
            && ValueAt(grown, path + [g.child]) == Child(g.value, g.child)
            && var now, next := Create(ValueAt(tree, path), tokens[i..]), Create(Child(g.value, g.child), tokens[i + 1..]);
               && SetAt(tree, path, now.root) == SetAt(grown, path + [g.child], next.root)
               && path + now.path == path + [g.child] + next.path && now.exist == (g.exist && next.exist)
  {
    hide Grow, SetChild, Child, Size;
    var g := Grow(ValueAt(tree, path), tokens[i]);
    var grown := SetAt(tree, path, g.value);
    assert tokens[i..][1..] == tokens[i + 1..];
    SetThenGet(tree, path, g.value);
    LongerPath(grown, path, g.child);
    Associates(path, [g.child], Create(Child(g.value, g.child), tokens[i + 1..]).path);
  }

  lemma {:induction false} SetSame(v: JValue, path: seq<nat>)
    requires IsPath(v, path)
    ensures SetAt(v, path, ValueAt(v, path)) == v
    decreases |path|
  {
    if path != [] {
      SetSame(Child(v, path[0]), path[1..]);
      SameChild(v, path[0]);
    }
  }

  /** The loop of Get; `unresolved` is the index of the token that leads nowhere. */
  method GetValue(root: JValue, tokens: seq<Token>) returns (r: Option<seq<nat>>, unresolved: nat)
    ensures r == Get(root, tokens)
    ensures r.None? ==> unresolved < |tokens|
    ensures r.None? ==> Get(root, tokens[..unresolved]).Some? && Get(root, tokens[..unresolved + 1]).None?
  {
    hide Resolve;
    var v, path := root, [];
    unresolved := 0;
    assert tokens[0..] == tokens;
    while unresolved < |tokens|
      invariant 0 <= unresolved <= |tokens|
      invariant IsPath(root, path) && v == ValueAt(root, path)
      invariant Get(root, tokens[..unresolved]) == Some(path)
    {
      GetStep(root, tokens, unresolved, path);
      var next := Resolve(v, tokens[unresolved]);
      if next.None? {
        GetPrefix(root, tokens, unresolved + 1);
        return None, unresolved;
      }
      LongerPath(root, path, next.value);
      v, path := Child(v, next.value), path + [next.value];
      unresolved := unresolved + 1;
    }
    assert tokens[..unresolved] == tokens;
    return Some(path), unresolved;
  }

  lemma {:induction false} GetStep(v: JValue, tokens: seq<Token>, k: nat, path: seq<nat>)
    requires k < |tokens| && Get(v, tokens[..k]) == Some(path)
    ensures Get(v, tokens[..k + 1]) == match Resolve(ValueAt(v, path), tokens[k])
                                       case None => None
                                       case Some(i) => Some(path + [i])
    decreases k
  {
    if k == 0 {
      assert tokens[..1][1..] == [];
      assert forall i: nat :: [i] + [] == [] + [i];
    } else {
      assert tokens[..k][1..] == tokens[1..][..k - 1] && tokens[..k + 1][1..] == tokens[1..][..k];
      var i := Resolve(v, tokens[0]).value;
      GetStep(Child(v, i), tokens[1..], k - 1, path[1..]);
      assert path == [i] + path[1..];
      forall j: nat
        ensures [i] + (path[1..] + [j]) == path + [j]
      {
      }
    }
  }

  /** A token that leads nowhere is the end of it. */
  lemma {:induction false} GetPrefix(v: JValue, tokens: seq<Token>, k: nat)
    requires k <= |tokens| && Get(v, tokens[..k]).None?
    ensures Get(v, tokens).None?
    decreases k
  {
    if k > 0 {
      var i := Resolve(v, tokens[0]);
      if i.Some? {
        assert tokens[..k][1..] == tokens[1..][..k - 1];
        GetPrefix(Child(v, i.value), tokens[1..], k - 1);
      }
    }
  }
}
