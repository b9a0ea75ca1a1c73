/**
  Resolving, creating, setting and erasing values by JSON Pointer, and the laws that connect them.
 */
module PointerAccess {
  import opened Json
  import opened Numbers
  import opened Writer
  import opened RoundTrip
  import opened Pointer

  datatype Found = Missing | Found(value: Value)

  datatype Choice = NoChild | Child(i: nat)

  // ---------------------------------------------------------------- children

  /** `FindMember`: the first member of that name. */
  function FindMember(ms: seq<Member>, name: Bytes): (r: Choice)
    ensures r.Child? ==> r.i < |ms| && ms[r.i].name == name && forall j :: 0 <= j < r.i ==> ms[j].name != name
    ensures r.NoChild? ==> forall j :: 0 <= j < |ms| ==> ms[j].name != name
  {
    if ms == [] then NoChild
    else if ms[0].name == name then Child(0)
    else
      assert forall j :: 1 <= j < |ms| ==> ms[j] == ms[1..][j - 1];
      match FindMember(ms[1..], name)
      case NoChild => NoChild
      case Child(i) => Child(i + 1)
  }

  function Width(v: Value): nat {
    match v
    case Array(elements) => |elements|
    case Object(members) => |members|
    case _ => 0
  }

  function ChildOf(v: Value, i: nat): (c: Value)
    requires i < Width(v)
    ensures c < v
  {
    match v
    case Array(elements) => elements[i]
    case Object(members) => members[i].value
  }

  function WithChild(v: Value, i: nat, c: Value): (r: Value)
    requires i < Width(v)
    ensures Width(r) == Width(v) && ChildOf(r, i) == c
    ensures forall j :: 0 <= j < Width(v) && j != i ==> ChildOf(r, j) == ChildOf(v, j)
    ensures r.Array? == v.Array? && r.Object? == v.Object?
  {
    match v
    case Array(elements) => Array(elements[i := c])
    case Object(members) => Object(members[i := Member(members[i].name, c)])
  }

  /** The container without its child `i`, the others keeping their order. */
  function Without(v: Value, i: nat): (r: Value)
    requires i < Width(v)
    ensures Width(r) == Width(v) - 1
  {
    match v
    case Array(elements) => Array(elements[..i] + elements[i + 1..])
    case Object(members) => Object(members[..i] + members[i + 1..])
  }

  /** The child a token selects. */
  function Resolve(v: Value, name: Bytes): (r: Choice)
    ensures r.Child? ==> r.i < Width(v)
  {
    match v
    case Object(members) => FindMember(members, name)
    case Array(elements) =>
      if IndexOf(name) == INVALID_INDEX || IndexOf(name) >= |elements| then NoChild else Child(IndexOf(name))
    case _ => NoChild
  }

  // ---------------------------------------------------------------- Get

  function Get(v: Value, ts: seq<Bytes>): Found
    decreases ts
  {
    if ts == [] then Found(v)
    else
      match Resolve(v, ts[0])
      case NoChild => Missing
      case Child(i) => Get(ChildOf(v, i), ts[1..])
  }

  lemma {:induction false} GetConcat(v: Value, a: seq<Bytes>, b: seq<Bytes>)
    ensures Get(v, a + b) == if Get(v, a).Found? then Get(Get(v, a).value, b) else Missing
    decreases |a|
  {
    hide Resolve;
    if a == [] {
      assert a + b == b;
    } else {
      assert (a + b)[0] == a[0] && (a + b)[1..] == a[1..] + b;
      if Resolve(v, a[0]).Child? {
        GetConcat(ChildOf(v, Resolve(v, a[0]).i), a[1..], b);
      }
    }
  }

  lemma GetOne(v: Value, name: Bytes)
    ensures Get(v, [name]) == if Resolve(v, name).Child? then Found(ChildOf(v, Resolve(v, name).i)) else Missing
  {
    var rest := [name][1..];
    assert rest == [];
  }

  /** The loop of `Get`, which also reports the first token that does not resolve. */
  method GetValue(root: Value, ts: seq<Bytes>) returns (r: Found, unresolved: nat)
    ensures r == Get(root, ts)
    ensures r.Missing? ==>
              unresolved < |ts| && Get(root, ts[..unresolved]).Found? && Get(root, ts[..unresolved + 1]).Missing?
  {
    hide Resolve;
    var v := root;
    var t := 0;
    while t < |ts|
      invariant 0 <= t <= |ts| && Get(root, ts[..t]) == Found(v)
      invariant Get(root, ts) == Get(v, ts[t..])
    {
      GetConcat(root, ts[..t], [ts[t]]);
      assert ts[..t] + [ts[t]] == ts[..t + 1];
      GetOne(v, ts[t]);
      assert ts[t..][1..] == ts[t + 1..];
      match Resolve(v, ts[t])
      case NoChild => return Missing, t;
      case Child(i) => v := ChildOf(v, i);
      t := t + 1;
    }
    return Found(v), 0;
  }

  // ---------------------------------------------------------------- Create

  const DASH: Bytes := [0x2D]

  function Nulls(n: nat): (vs: seq<Value>)
    ensures |vs| == n && forall i :: 0 <= i < n ==> vs[i] == Null
  {
    seq(n, i => Null)
  }

  /** The container after a token made room for its child, the child, and whether it was there before. */
  datatype Grown = Grown(v: Value, i: nat, existed: bool)

  /** A container of the type the token needs: other types are replaced by an empty one. */
  function Adapt(v: Value, name: Bytes): (w: Value)
    ensures w.Array? || w.Object?
  {
    if IndexOf(name) == INVALID_INDEX then (if v.Object? then v else Object([]))
    else if v.Array? || v.Object? then v
    else Array([])
  }

  /** One turn of the loop of `Create`. */
  function Grow(v: Value, name: Bytes): (g: Grown)
    ensures g.i < Width(g.v)
  {
    if v.Array? && name == DASH then Grown(Array(v.elements + [Null]), |v.elements|, false)
    else
      var w := Adapt(v, name);
      if w.Array? then
        var index := IndexOf(name);
        if index >= |w.elements| then Grown(Array(w.elements + Nulls(index + 1 - |w.elements|)), index, false)
        else Grown(w, index, true)
      else
        match FindMember(w.members, name)
        case Child(i) => Grown(w, i, true)
        case NoChild => Grown(Object(w.members + [Member(name, Null)]), |w.members|, false)
  }

  /** The tree after `Create`, the path of child numbers to the returned value, and `alreadyExist`. */
  datatype Created = Created(tree: Value, path: seq<nat>, existed: bool)

  function Create(v: Value, ts: seq<Bytes>): (c: Created)
    ensures IsPath(c.tree, c.path)
    decreases ts
  {
    if ts == [] then Created(v, [], true)
    else
      var g := Grow(v, ts[0]);
      var below := Create(ChildOf(g.v, g.i), ts[1..]);
      Created(WithChild(g.v, g.i, below.tree), [g.i] + below.path, g.existed && below.existed)
  }

  predicate IsPath(v: Value, path: seq<nat>)
    decreases path
  {
    path == [] || (path[0] < Width(v) && IsPath(ChildOf(v, path[0]), path[1..]))
  }

  function At(v: Value, path: seq<nat>): Value
    requires IsPath(v, path)
    decreases path
  {
    if path == [] then v else At(ChildOf(v, path[0]), path[1..])
  }

  /** The tree with the value at a path replaced. */
  function Assign(v: Value, path: seq<nat>, x: Value): Value
    requires IsPath(v, path)
    decreases path
  {
    if path == [] then x else WithChild(v, path[0], Assign(ChildOf(v, path[0]), path[1..], x))
  }

  function Set(v: Value, ts: seq<Bytes>, x: Value): Value {
    var c := Create(v, ts);
    Assign(c.tree, c.path, x)
  }

  // ---------------------------------------------------------------- Erase

  datatype Erased = Erased(tree: Value, ok: bool)

  function Erase(v: Value, ts: seq<Bytes>): Erased
    decreases ts
  {
    if ts == [] then Erased(v, false)
    else
      match Resolve(v, ts[0])
      case NoChild => Erased(v, false)
      case Child(i) =>
        if |ts| == 1 then Erased(Without(v, i), true)
        else
          var below := Erase(ChildOf(v, i), ts[1..]);
          Erased(WithChild(v, i, below.tree), below.ok)
  }

  // ---------------------------------------------------------------- the laws of Create

  lemma PutBack(v: Value, i: nat)
    requires i < Width(v)
    ensures WithChild(v, i, ChildOf(v, i)) == v
  {
    if v.Array? {
      assert v.elements[i := v.elements[i]] == v.elements;
    } else {
      assert v.members[i := Member(v.members[i].name, v.members[i].value)] == v.members;
    }
  }

  lemma DashHasNoIndex()
    ensures IndexOf(DASH) == INVALID_INDEX
  {
  }

  /** A token finds its child already there exactly when `Get` resolves it, and then nothing changes. */
  lemma GrowResolves(v: Value, name: Bytes)
    ensures Grow(v, name).existed <==> Resolve(v, name).Child?
    ensures Grow(v, name).existed ==> Grow(v, name).v == v && Grow(v, name).i == Resolve(v, name).i
  {
    hide IndexOf;
    DashHasNoIndex();
  }

  /** `alreadyExist` is true exactly when `Get` resolved beforehand; the tree is then unchanged. */
  lemma {:induction false} CreateExists(v: Value, ts: seq<Bytes>)
    ensures Create(v, ts).existed <==> Get(v, ts).Found?
    ensures Create(v, ts).existed ==> Create(v, ts).tree == v && At(v, Create(v, ts).path) == Get(v, ts).value
    decreases ts
  {
    hide Grow, Resolve, WithChild;
    if ts != [] {
      GrowResolves(v, ts[0]);
      var g := Grow(v, ts[0]);
      CreateExists(ChildOf(g.v, g.i), ts[1..]);
      if g.existed {
        PutBack(v, g.i);
      }
    }
  }

  /** `Set` token by token. */
  lemma SetStep(v: Value, ts: seq<Bytes>, x: Value)
    requires ts != []
    ensures var g := Grow(v, ts[0]);
            Set(v, ts, x) == WithChild(g.v, g.i, Set(ChildOf(g.v, g.i), ts[1..], x))
  {
    hide Grow;
    var g := Grow(v, ts[0]);
    var below := Create(ChildOf(g.v, g.i), ts[1..]);
    var c := Create(v, ts);
    assert c.path[1..] == below.path;
    WithTwice(g.v, g.i, below.tree, Assign(below.tree, below.path, x));
  }

  lemma WithTwice(v: Value, i: nat, a: Value, b: Value)
    requires i < Width(v)
    ensures WithChild(WithChild(v, i, a), i, b) == WithChild(v, i, b)
  {
    if v.Array? {
      assert v.elements[i := a][i := b] == v.elements[i := b];
    } else {
      var ms := v.members[i := Member(v.members[i].name, a)];
      assert ms[i := Member(ms[i].name, b)] == v.members[i := Member(v.members[i].name, b)];
    }
  }

  /** Some "-" token meets an array, where it appends. */
  predicate DashMet(v: Value, ts: seq<Bytes>)
    decreases ts
  {
    ts != [] && ((v.Array? && ts[0] == DASH) || DashMet(ChildOf(Grow(v, ts[0]).v, Grow(v, ts[0]).i), ts[1..]))
  }

  /** Once made, a child is found again, unless it was appended by "-". */
  lemma GrowThenResolve(v: Value, name: Bytes, c: Value)
    ensures var g := Grow(v, name);
            Resolve(WithChild(g.v, g.i, c), name) == if v.Array? && name == DASH then NoChild else Child(g.i)
  {
    hide IndexOf;
    DashHasNoIndex();
    var g := Grow(v, name);
    var w := WithChild(g.v, g.i, c);
    if w.Object? {
      SameNames(g.v, g.i, c, name);
      if !g.existed {
        FoundLast(Adapt(v, name).members, name);
      }
    }
  }

  /** Replacing a member's value does not change where names are found. */
  lemma SameNames(v: Value, i: nat, c: Value, name: Bytes)
    requires v.Object? && i < Width(v)
    ensures FindMember(WithChild(v, i, c).members, name) == FindMember(v.members, name)
  {
    var ms, ns := v.members, WithChild(v, i, c).members;
    assert forall j :: 0 <= j < |ms| ==> ns[j].name == ms[j].name;
  }

  lemma FoundLast(ms: seq<Member>, name: Bytes)
    requires FindMember(ms, name).NoChild?
    ensures FindMember(ms + [Member(name, Null)], name) == Child(|ms|)
  {
    var ns := ms + [Member(name, Null)];
    assert ns[|ms|].name == name;
  }

  /** After `Set`, `Get` finds the value, exactly when no "-" token met an array. */
  lemma {:induction false} SetThenGet(v: Value, ts: seq<Bytes>, x: Value)
    ensures Get(Set(v, ts, x), ts) == if DashMet(v, ts) then Missing else Found(x)
    decreases ts
  {
    hide Grow, Resolve, WithChild, Create, Assign;
    if ts == [] {
      SetRoot(v, x);
    } else {
      SetStep(v, ts, x);
      var g := Grow(v, ts[0]);
      var below := Set(ChildOf(g.v, g.i), ts[1..], x);
      hide Set;
      GrowThenResolve(v, ts[0], below);
      SetThenGet(ChildOf(g.v, g.i), ts[1..], x);
    }
  }

  lemma SetRoot(v: Value, x: Value)
    ensures Set(v, [], x) == x
  {
  }

  /** The token turns an array into an object. */
  predicate Destroys(v: Value, name: Bytes) {
    v.Array? && name != DASH && IndexOf(name) == INVALID_INDEX
  }

  /** Two pointers part at some container: the second goes on to a child the first does not touch. */
  predicate Diverge(v: Value, ts: seq<Bytes>, us: seq<Bytes>)
    decreases ts
  {
    && ts != [] && us != [] && Resolve(v, us[0]).Child? && !Destroys(v, ts[0])
    && (Grow(v, ts[0]).i != Resolve(v, us[0]).i || Diverge(ChildOf(v, Resolve(v, us[0]).i), ts[1..], us[1..]))
  }

  lemma GrowKeepsOthers(v: Value, name: Bytes, other: Bytes, c: Value)
    requires Resolve(v, other).Child? && !Destroys(v, name)
    ensures var g := Grow(v, name);
            var j := Resolve(v, other).i;
            && Resolve(WithChild(g.v, g.i, c), other) == Child(j)
            && j < Width(g.v) && ChildOf(g.v, j) == ChildOf(v, j)
  {
    hide IndexOf;
    var g := Grow(v, name);
    if v.Object? {
      SameNames(g.v, g.i, c, other);
      if !g.existed {
        StillFound(v.members, Member(name, Null), other);
      }
    }
  }

  lemma StillFound(ms: seq<Member>, m: Member, name: Bytes)
    requires FindMember(ms, name).Child?
    ensures FindMember(ms + [m], name) == FindMember(ms, name)
  {
    var i := FindMember(ms, name).i;
    assert (ms + [m])[i].name == name;
    assert forall j :: 0 <= j < i ==> (ms + [m])[j].name != name;
  }

  /** `Set` leaves alone whatever lies off its path. */
  lemma {:induction false} SetKeepsOthers(v: Value, ts: seq<Bytes>, us: seq<Bytes>, x: Value)
    requires Diverge(v, ts, us)
    ensures Get(Set(v, ts, x), us) == Get(v, us)
    decreases ts
  {
    hide Grow, Resolve, Create, Assign, Destroys;
    SetStep(v, ts, x);
    var g := Grow(v, ts[0]);
    var j := Resolve(v, us[0]).i;
    var below := Set(ChildOf(g.v, g.i), ts[1..], x);
    GrowKeepsOthers(v, ts[0], us[0], below);
    if g.i == j {
      SetKeepsOthers(ChildOf(v, j), ts[1..], us[1..], x);
    }
  }

  // ---------------------------------------------------------------- the laws of Erase

  /** `Erase` succeeds exactly when the pointer is not the root's and `Get` resolves it; otherwise nothing changes. */
  lemma {:induction false} EraseExists(v: Value, ts: seq<Bytes>)
    ensures Erase(v, ts).ok <==> ts != [] && Get(v, ts).Found?
    ensures !Erase(v, ts).ok ==> Erase(v, ts).tree == v
    decreases ts
  {
    hide Resolve, WithChild, Without;
    if ts != [] && Resolve(v, ts[0]).Child? {
      var i := Resolve(v, ts[0]).i;
      if |ts| == 1 {
        assert ts[1..] == [];
      } else {
        EraseExists(ChildOf(v, i), ts[1..]);
        PutBack(v, i);
      }
    }
  }

  /** The number of values in a tree. */
  function Size(v: Value): nat
    decreases v
  {
    match v
    case Array(elements) => 1 + ElementsSize(elements)
    case Object(members) => 1 + MembersSize(members)
    case _ => 1
  }

  function ElementsSize(vs: seq<Value>): nat
    decreases vs
  {
    if vs == [] then 0 else Size(vs[0]) + ElementsSize(vs[1..])
  }

  function MembersSize(ms: seq<Member>): nat
    decreases ms
  {
    if ms == [] then 0 else Size(ms[0].value) + MembersSize(ms[1..])
  }

  lemma {:induction false} ElementsSplit(a: seq<Value>, b: seq<Value>)
    ensures ElementsSize(a + b) == ElementsSize(a) + ElementsSize(b)
    decreases |a|
  {
    hide Size;
    if a == [] {
      assert a + b == b;
    } else {
      assert (a + b)[1..] == a[1..] + b;
      ElementsSplit(a[1..], b);
    }
  }

  lemma {:induction false} MembersSplit(a: seq<Member>, b: seq<Member>)
    ensures MembersSize(a + b) == MembersSize(a) + MembersSize(b)
    decreases |a|
  {
    hide Size;
    if a == [] {
      assert a + b == b;
    } else {
      assert (a + b)[1..] == a[1..] + b;
      MembersSplit(a[1..], b);
    }
  }

  lemma ElementsAround(vs: seq<Value>, i: nat, c: Value)
    requires i < |vs|
    ensures ElementsSize(vs[i := c]) == ElementsSize(vs[..i]) + Size(c) + ElementsSize(vs[i + 1..])
  {
    hide Size;
    ElementsSplit(vs[..i], [c]);
    ElementsSplit(vs[..i] + [c], vs[i + 1..]);
    assert vs[i := c] == vs[..i] + [c] + vs[i + 1..];
    OneElement(c);
  }

  lemma OneElement(c: Value)
    ensures ElementsSize([c]) == Size(c)
  {
    hide Size;
    var rest := [c][1..];
    assert rest == [];
  }

  lemma MembersAround(ms: seq<Member>, i: nat, m: Member)
    requires i < |ms|
    ensures MembersSize(ms[i := m]) == MembersSize(ms[..i]) + Size(m.value) + MembersSize(ms[i + 1..])
  {
    hide Size;
    MembersSplit(ms[..i], [m]);
    MembersSplit(ms[..i] + [m], ms[i + 1..]);
    assert ms[i := m] == ms[..i] + [m] + ms[i + 1..];
    OneMember(m);
  }

  lemma OneMember(m: Member)
    ensures MembersSize([m]) == Size(m.value)
  {
    hide Size;
    var rest := [m][1..];
    assert rest == [];
  }

  lemma SizeOfChild(v: Value, i: nat, c: Value)
    requires i < Width(v)
    ensures Size(WithChild(v, i, c)) == Size(v) - Size(ChildOf(v, i)) + Size(c)
    ensures Size(Without(v, i)) == Size(v) - Size(ChildOf(v, i))
  {
    if v.Array? {
      var vs := v.elements;
      hide ElementsSize;
      ElementsAround(vs, i, c);
      ElementsAround(vs, i, vs[i]);
      assert vs[i := vs[i]] == vs;
      ElementsSplit(vs[..i], vs[i + 1..]);
    } else {
      var ms := v.members;
      hide MembersSize;
      MembersAround(ms, i, Member(ms[i].name, c));
      MembersAround(ms, i, ms[i]);
      assert ms[i := ms[i]] == ms;
      MembersSplit(ms[..i], ms[i + 1..]);
    }
  }

  /** The tree loses exactly as many values as the erased one held. */
  lemma {:induction false} EraseConserves(v: Value, ts: seq<Bytes>)
    requires Erase(v, ts).ok
    ensures Get(v, ts).Found? && Size(Erase(v, ts).tree) + Size(Get(v, ts).value) == Size(v)
    decreases ts
  {
    hide Resolve, WithChild, Without, Size;
    EraseExists(v, ts);
    var i := Resolve(v, ts[0]).i;
    if |ts| == 1 {
      assert ts[1..] == [];
      SizeOfChild(v, i, Null);
    } else {
      EraseConserves(ChildOf(v, i), ts[1..]);
      SizeOfChild(v, i, Erase(ChildOf(v, i), ts[1..]).tree);
    }
  }

  /** `Erase` takes the child out of its container, which stays where it was. */
  lemma {:induction false} EraseRemoves(v: Value, ts: seq<Bytes>)
    requires Erase(v, ts).ok
    ensures var n := |ts| - 1;
            && n >= 0 && Get(v, ts[..n]).Found?
            && var parent := Get(v, ts[..n]).value;
               Resolve(parent, ts[n]).Child?
               && Get(Erase(v, ts).tree, ts[..n]) == Found(Without(parent, Resolve(parent, ts[n]).i))
    decreases ts
  {
    hide WithChild, Without, Resolve;
    var i := Resolve(v, ts[0]).i;
    if |ts| == 1 {
      assert ts[..0] == [];
    } else {
      var n := |ts| - 1;
      EraseRemoves(ChildOf(v, i), ts[1..]);
      assert ts[..n][0] == ts[0] && ts[..n][1..] == ts[1..][..n - 1];
      SameChoice(v, ts[0], Erase(ChildOf(v, i), ts[1..]).tree);
    }
  }

  /** Two pointers part at some container, each going on to a child of its own. */
  predicate Parts(v: Value, ts: seq<Bytes>, us: seq<Bytes>)
    decreases ts
  {
    && ts != [] && us != [] && Resolve(v, ts[0]).Child? && Resolve(v, us[0]).Child?
    && (Resolve(v, ts[0]) != Resolve(v, us[0]) || Parts(ChildOf(v, Resolve(v, us[0]).i), ts[1..], us[1..]))
  }

  /** The pointer by which a value is known after an erasure: elements behind the erased one move up by one. */
  function Moved(v: Value, ts: seq<Bytes>, us: seq<Bytes>): seq<Bytes>
    requires Parts(v, ts, us)
    decreases ts
  {
    if Resolve(v, ts[0]) == Resolve(v, us[0]) then
      [us[0]] + Moved(ChildOf(v, Resolve(v, us[0]).i), ts[1..], us[1..])
    else if |ts| == 1 && v.Array? && Resolve(v, ts[0]).i < Resolve(v, us[0]).i then
      [Decimal(Resolve(v, us[0]).i - 1)] + us[1..]
    else us
  }

  lemma DecimalIndex(n: nat)
    requires n < INVALID_INDEX
    ensures IndexOf(Decimal(n)) == n
  {
    hide DecValue, IndexOf;
    DecimalValue(n);
    FittingIndex(Decimal(n));
  }

  lemma IndexFits(name: Bytes)
    ensures IndexOf(name) <= INVALID_INDEX
  {
    hide Wrapped, Accumulated, Dips;
    if LooksLikeIndex(name) {
      IndexIsWrapped(name);
    }
  }

  lemma WithoutMember(ms: seq<Member>, i: nat, name: Bytes)
    requires i < |ms| && ms[i].name != name && FindMember(ms, name).Child?
    ensures var j := FindMember(ms, name).i;
            FindMember(ms[..i] + ms[i + 1..], name) == Child(if j < i then j else j - 1)
  {
    hide FindMember;
    var j := FindMember(ms, name).i;
    var rest := ms[..i] + ms[i + 1..];
    var k := if j < i then j else j - 1;
    assert rest[k] == ms[j];
    forall l | 0 <= l < k ensures rest[l].name != name {
      assert rest[l] == ms[if l < i then l else l + 1];
    }
    FirstOfName(rest, name, k);
  }

  lemma FirstOfName(ms: seq<Member>, name: Bytes, k: nat)
    requires k < |ms| && ms[k].name == name && forall l :: 0 <= l < k ==> ms[l].name != name
    ensures FindMember(ms, name) == Child(k)
  {
    hide FindMember;
  }

  /** The other children of a container are still there when one has been taken out. */
  lemma WithoutKeeps(v: Value, t: Bytes, u: Bytes)
    requires Resolve(v, t).Child? && Resolve(v, u).Child? && Resolve(v, t) != Resolve(v, u)
    ensures var i, j := Resolve(v, t).i, Resolve(v, u).i;
            var w := if v.Array? && i < j then Decimal(j - 1) else u;
            var r := Resolve(Without(v, i), w);
            r.Child? && ChildOf(Without(v, i), r.i) == ChildOf(v, j)
  {
    hide IndexOf, Decimal;
    var i, j := Resolve(v, t).i, Resolve(v, u).i;
    if v.Object? {
      WithoutMember(v.members, i, u);
    } else if i < j {
      IndexFits(u);
      DecimalIndex(j - 1);
    }
  }

  /** `Erase` leaves alone whatever lies off its path, elements behind the erased one being renumbered. */
  lemma {:induction false} EraseKeepsOthers(v: Value, ts: seq<Bytes>, us: seq<Bytes>)
    requires Erase(v, ts).ok && Parts(v, ts, us)
    ensures Get(Erase(v, ts).tree, Moved(v, ts, us)) == Get(v, us)
    decreases ts
  {
    hide Resolve, WithChild, Without, Decimal;
    var i, j := Resolve(v, ts[0]).i, Resolve(v, us[0]).i;
    if |ts| == 1 {
      assert ts[1..] == [];
      WithoutKeeps(v, ts[0], us[0]);
    } else {
      var below := Erase(ChildOf(v, i), ts[1..]).tree;
      OtherChoice(v, i, us[0], below);
      if i == j {
        EraseKeepsOthers(ChildOf(v, i), ts[1..], us[1..]);
      }
    }
  }

  lemma OtherChoice(v: Value, i: nat, name: Bytes, c: Value)
    requires i < Width(v) && Resolve(v, name).Child?
    ensures Resolve(WithChild(v, i, c), name) == Resolve(v, name)
  {
    if v.Object? {
      SameNames(v, i, c, name);
    }
  }

  lemma SameChoice(v: Value, name: Bytes, c: Value)
    requires Resolve(v, name).Child?
    ensures Resolve(WithChild(v, Resolve(v, name).i, c), name) == Resolve(v, name)
  {
    if v.Object? {
      SameNames(v, Resolve(v, name).i, c, name);
    }
  }

  /** The last token adds one child: a new member, or an element right after the last. */
  predicate AddsOne(parent: Value, name: Bytes) {
    (parent.Object? && Resolve(parent, name).NoChild?)
    || (parent.Array? && IndexOf(name) == |parent.elements| < INVALID_INDEX)
  }

  lemma GrowThenWithout(v: Value, name: Bytes)
    requires AddsOne(v, name)
    ensures var g := Grow(v, name); Resolve(g.v, name) == Child(g.i) && Without(g.v, g.i) == v
  {
    hide IndexOf;
    DashHasNoIndex();
    if v.Object? {
      FoundLast(v.members, name);
      assert (v.members + [Member(name, Null)])[..|v.members|] + [] == v.members;
    } else {
      assert (v.elements + Nulls(1))[..|v.elements|] + [] == v.elements;
    }
  }

  /** `Erase` undoes a `Create` that added one child to an existing container. */
  lemma {:induction false} EraseUndoesCreate(v: Value, ts: seq<Bytes>)
    requires ts != [] && Get(v, ts[..|ts| - 1]).Found? && AddsOne(Get(v, ts[..|ts| - 1]).value, ts[|ts| - 1])
    ensures !Create(v, ts).existed && Erase(Create(v, ts).tree, ts) == Erased(v, true)
    decreases ts
  {
    hide Grow, WithChild, Without, Resolve, AddsOne;
    var g := Grow(v, ts[0]);
    if |ts| == 1 {
      assert ts[..0] == [] && ts[1..] == [];
      GrowThenWithout(v, ts[0]);
      NewChild(v, ts[0]);
      PutBack(g.v, g.i);
    } else {
      var n := |ts| - 1;
      assert ts[..n][0] == ts[0] && ts[..n][1..] == ts[1..][..n - 1];
      GrowResolves(v, ts[0]);
      EraseUndoesCreate(ChildOf(v, g.i), ts[1..]);
      SameChoice(v, ts[0], Create(ChildOf(v, g.i), ts[1..]).tree);
      WithTwice(v, g.i, Create(ChildOf(v, g.i), ts[1..]).tree, ChildOf(v, g.i));
      PutBack(v, g.i);
    }
  }

  lemma NewChild(v: Value, name: Bytes)
    requires AddsOne(v, name)
    ensures !Grow(v, name).existed
  {
    GrowResolves(v, name);
  }

  // ---------------------------------------------------------------- the loops

  lemma {:induction false} AssignAt(v: Value, path: seq<nat>, x: Value)
    requires IsPath(v, path)
    ensures IsPath(Assign(v, path, x), path) && At(Assign(v, path, x), path) == x
    decreases path
  {
    hide WithChild;
    if path != [] {
      AssignAt(ChildOf(v, path[0]), path[1..], x);
    }
  }

  lemma {:induction false} AssignOver(v: Value, path: seq<nat>, x: Value, y: Value)
    requires IsPath(v, path)
    ensures IsPath(Assign(v, path, x), path) && Assign(Assign(v, path, x), path, y) == Assign(v, path, y)
    decreases path
  {
    hide WithChild;
    AssignAt(v, path, x);
    if path != [] {
      var child := ChildOf(v, path[0]);
      AssignOver(child, path[1..], x, y);
      WithTwice(v, path[0], Assign(child, path[1..], x), Assign(child, path[1..], y));
    }
  }

  lemma {:induction false} AssignSame(v: Value, path: seq<nat>)
    requires IsPath(v, path)
    ensures Assign(v, path, At(v, path)) == v
    decreases path
  {
    hide WithChild;
    if path != [] {
      AssignSame(ChildOf(v, path[0]), path[1..]);
      PutBack(v, path[0]);
    }
  }

  lemma {:induction false} PathDown(v: Value, path: seq<nat>, i: nat, x: Value)
    requires IsPath(v, path) && i < Width(At(v, path))
    ensures IsPath(v, path + [i]) && At(v, path + [i]) == ChildOf(At(v, path), i)
    ensures Assign(v, path + [i], x) == Assign(v, path, WithChild(At(v, path), i, x))
    decreases path
  {
    hide WithChild;
    var longer := path + [i];
    if path == [] {
      assert longer[1..] == [];
    } else {
      assert longer[1..] == path[1..] + [i];
      PathDown(ChildOf(v, path[0]), path[1..], i, x);
    }
  }

  /** One turn of the loop of `Create`: the value under the cursor grows, and the cursor moves to the child. */
  lemma CreateTurn(tree: Value, path: seq<nat>, ts: seq<Bytes>)
    requires IsPath(tree, path) && ts != []
    ensures var g := Grow(At(tree, path), ts[0]);
            var next := Assign(tree, path, g.v);
            var below := Create(ChildOf(g.v, g.i), ts[1..]);
            && IsPath(next, path + [g.i]) && At(next, path + [g.i]) == ChildOf(g.v, g.i)
            && Assign(next, path + [g.i], below.tree) == Assign(tree, path, Create(At(tree, path), ts).tree)
  {
    hide Grow, WithChild, Assign, At, IsPath;
    var g := Grow(At(tree, path), ts[0]);
    var below := Create(ChildOf(g.v, g.i), ts[1..]);
    AssignAt(tree, path, g.v);
    AssignOver(tree, path, g.v, WithChild(g.v, g.i, below.tree));
    PathDown(Assign(tree, path, g.v), path, g.i, below.tree);
  }

  /** What is still to be done from the cursor leads to the result for the whole pointer. */
  ghost predicate Leads(all: Created, tree: Value, path: seq<nat>, exist: bool, rest: seq<Bytes>) {
    && IsPath(tree, path)
    && var below := Create(At(tree, path), rest);
       all == Created(Assign(tree, path, below.tree), path + below.path, exist && below.existed)
  }

  lemma LeadsOn(all: Created, tree: Value, path: seq<nat>, exist: bool, rest: seq<Bytes>)
    requires Leads(all, tree, path, exist, rest) && rest != []
    ensures var g := Grow(At(tree, path), rest[0]);
            Leads(all, Assign(tree, path, g.v), path + [g.i], exist && g.existed, rest[1..])
  {
    hide Grow, WithChild, Assign, At, IsPath;
    CreateTurn(tree, path, rest);
    var g := Grow(At(tree, path), rest[0]);
    var below := Create(ChildOf(g.v, g.i), rest[1..]);
    assert path + ([g.i] + below.path) == path + [g.i] + below.path;
  }

  lemma LeadsHome(all: Created, tree: Value, path: seq<nat>, exist: bool)
    requires Leads(all, tree, path, exist, [])
    ensures all == Created(tree, path, exist)
  {
    AssignSame(tree, path);
    assert path + [] == path;
  }

  lemma LeadsFrom(root: Value, ts: seq<Bytes>)
    ensures Leads(Create(root, ts), root, [], true, ts)
  {
    var all := Create(root, ts);
    RootPath(root, all.tree);
    assert [] + all.path == all.path;
  }

  /**
    The loop of `Create`: the tree changes at the current value only, and the cursor moves down. `path` says
    where the cursor is.
   */
  method CreateValue(root: Value, ts: seq<Bytes>) returns (tree: Value, path: seq<nat>, exist: bool)
    ensures Created(tree, path, exist) == Create(root, ts)
  {
    hide Grow, Assign, At, Create;
    tree, path, exist := root, [], true;
    LeadsFrom(root, ts);
    assert ts[0..] == ts;
    var t := 0;
    while t < |ts|
      invariant 0 <= t <= |ts|
      invariant Leads(Create(root, ts), tree, path, exist, ts[t..])
    {
      LeadsOn(Create(root, ts), tree, path, exist, ts[t..]);
      assert ts[t..][1..] == ts[t + 1..];
      var g := Grow(At(tree, path), ts[t]);
      tree, path, exist := Assign(tree, path, g.v), path + [g.i], exist && g.existed;
      t := t + 1;
    }
    assert ts[t..] == [];
    LeadsHome(Create(root, ts), tree, path, exist);
  }

  lemma RootPath(v: Value, x: Value)
    ensures IsPath(v, []) && At(v, []) == v && Assign(v, [], x) == x
  {
  }
}
