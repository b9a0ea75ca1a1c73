/**
  What the values along a pointer look like once `Create` or `Set` has made room for it, stated case by case on the
  values and tokens alone.
 */
module PointerShape {
  import opened Json
  import opened Pointer
  import opened PointerAccess

  /** The token can be an array index. */
  predicate HasIndex(name: Bytes) {
    IndexOf(name) != 0xFFFF_FFFF
  }

  /** No member but the one at `i`, if any, comes first under the name. */
  predicate FirstUnder(ms: seq<Member>, name: Bytes, i: nat) {
    i < |ms| && ms[i].name == name && forall j :: 0 <= j < i ==> ms[j].name != name
  }

  /** An array filled up with nulls as far as an index, which holds `child`. */
  predicate Filled(was: seq<Value>, index: nat, child: Value, now: seq<Value>) {
    && |now| == (if index < |was| then |was| else index + 1)
    && now[index] == child
    && (forall j :: 0 <= j < |was| && j != index ==> now[j] == was[j])
    && forall j :: |was| <= j < index ==> now[j] == Null
  }

  /** The object after the member of that name, which held `before`, came to hold `child`; new members come last. */
  predicate Entered(was: seq<Member>, name: Bytes, before: Value, child: Value, now: seq<Member>) {
    if exists i :: 0 <= i < |was| && FirstUnder(was, name, i) then
      |now| == |was|
      && forall j :: 0 <= j < |was| ==>
           if FirstUnder(was, name, j) then was[j].value == before && now[j] == Member(name, child) else now[j] == was[j]
    else before == Null && now == was + [Member(name, child)]
  }

  /**
    A token of a pointer met `was`, and what it leads to went from `before` to `child`, leaving `made`.
    "-" appends to an array. An index stays within an array or fills it up. Any token is a name in an object. What is
    neither becomes an array for an index and an object otherwise, and so does an array for a token that is no index.
   */
  predicate Places(was: Value, name: Bytes, before: Value, child: Value, made: Value) {
    match was
    case Array(elements) =>
      if name == [0x2D] then before == Null && made == Array(elements + [child])
      else if HasIndex(name) then
        && made.Array? && Filled(elements, IndexOf(name), child, made.elements)
        && before == if IndexOf(name) < |elements| then elements[IndexOf(name)] else Null
      else before == Null && made == Object([Member(name, child)])
    case Object(members) => made.Object? && Entered(members, name, before, child, made.members)
    case _ =>
      if HasIndex(name) then before == Null && made.Array? && Filled([], IndexOf(name), child, made.elements)
      else before == Null && made == Object([Member(name, child)])
  }

  /** All along the pointer; at its end stands `last`, or what was there. */
  ghost predicate Made(was: Value, ts: seq<Bytes>, last: Option<Value>, made: Value)
    decreases ts
  {
    if ts == [] then made == if last.Some? then last.value else was
    else exists before, child :: Places(was, ts[0], before, child, made) && Made(before, ts[1..], last, child)
  }

  lemma EntersMember(ms: seq<Member>, name: Bytes, child: Value)
    ensures match FindMember(ms, name)
            case Child(i) => i < |ms| && Entered(ms, name, ms[i].value, child, ms[i := Member(ms[i].name, child)])
            case NoChild => Entered(ms, name, Null, child, ms + [Member(name, child)])
  {
    hide FindMember;
    if FindMember(ms, name).Child? {
      assert FirstUnder(ms, name, FindMember(ms, name).i);
    }
  }

  lemma NewObject(name: Bytes, child: Value)
    ensures FindMember([], name).NoChild? && [] + [Member(name, Null)] == [Member(name, Null)]
    ensures WithChild(Object([Member(name, Null)]), 0, child) == Object([Member(name, child)])
  {
    assert [Member(name, Null)][0 := Member(name, child)] == [Member(name, child)];
  }

  lemma FillsArray(was: seq<Value>, index: nat, child: Value)
    ensures var grown := if index < |was| then was else was + Nulls(index + 1 - |was|);
            index < |grown| && Filled(was, index, child, grown[index := child])
            && grown[index] == if index < |was| then was[index] else Null
  {
  }

  lemma AppendedMember(ms: seq<Member>, m: Member, child: Value)
    ensures (ms + [m])[|ms| := Member(m.name, child)] == ms + [Member(m.name, child)]
  {
  }

  /** One turn of the loop of `Create`, with the child set afterwards. */
  lemma GrowPlaces(was: Value, name: Bytes, child: Value)
    ensures var g := Grow(was, name); Places(was, name, ChildOf(g.v, g.i), child, WithChild(g.v, g.i, child))
  {
    hide IndexOf, FindMember, Filled, Entered;
    DashHasNoIndex();
    var index := IndexOf(name);
    match was
    case Array(elements) =>
      if name == [0x2D] {
        assert (elements + [Null])[|elements| := child] == elements + [child];
      } else {
        FillsArray(elements, index, child);
        NewObject(name, child);
      }
    case Object(members) =>
      EntersMember(members, name, child);
      AppendedMember(members, Member(name, Null), child);
    case _ =>
      FillsArray([], index, child);
      NewObject(name, child);
      assert [] + Nulls(index + 1) == Nulls(index + 1);
  }

  lemma {:induction false} CreateMakes(v: Value, ts: seq<Bytes>)
    ensures Made(v, ts, None, Create(v, ts).tree)
    decreases ts
  {
    hide Grow, Places, WithChild, ChildOf;
    if ts != [] {
      var g := Grow(v, ts[0]);
      var below := Create(ChildOf(g.v, g.i), ts[1..]).tree;
      GrowPlaces(v, ts[0], below);
      CreateMakes(ChildOf(g.v, g.i), ts[1..]);
    }
  }

  lemma {:induction false} SetMakes(v: Value, ts: seq<Bytes>, x: Value)
    ensures Made(v, ts, Some(x), Set(v, ts, x))
    decreases ts
  {
    hide Grow, Places, WithChild, ChildOf, Create, Assign, Set;
    if ts == [] {
      SetRoot(v, x);
    } else {
      SetStep(v, ts, x);
      var g := Grow(v, ts[0]);
      var below := Set(ChildOf(g.v, g.i), ts[1..], x);
      GrowPlaces(v, ts[0], below);
      SetMakes(ChildOf(g.v, g.i), ts[1..], x);
    }
  }

  // ---------------------------------------------------------------- there is only one such tree

  lemma FilledOnce(was: seq<Value>, index: nat, child: Value, a: seq<Value>, b: seq<Value>)
    requires Filled(was, index, child, a) && Filled(was, index, child, b)
    ensures a == b
  {
    forall j | 0 <= j < |a| ensures a[j] == b[j] {
      if j < |was| && j != index {
        assert a[j] == was[j];
      }
    }
  }

  lemma EnteredOnce(was: seq<Member>, name: Bytes, before: Value, child: Value, a: seq<Member>, b: seq<Member>)
    requires Entered(was, name, before, child, a) && Entered(was, name, before, child, b)
    ensures a == b
  {
  }

  lemma SameBefore(was: Value, name: Bytes, before: Value, other: Value, c: Value, d: Value, a: Value, b: Value)
    requires Places(was, name, before, c, a) && Places(was, name, other, d, b)
    ensures before == other
  {
    hide Filled;
    if was.Object? {
      if i: nat :| FirstUnder(was.members, name, i) {
        assert was.members[i].value == before == other;
      }
    }
  }

  lemma PlacedOnce(was: Value, name: Bytes, before: Value, child: Value, a: Value, b: Value)
    requires Places(was, name, before, child, a) && Places(was, name, before, child, b)
    ensures a == b
  {
    hide Filled, Entered;
    if was.Object? {
      EnteredOnce(was.members, name, before, child, a.members, b.members);
    } else if a.Array? && HasIndex(name) && !(was.Array? && name == [0x2D]) {
      FilledOnce(if was.Array? then was.elements else [], IndexOf(name), child, a.elements, b.elements);
    }
  }

  lemma {:induction false} MadeOnce(was: Value, ts: seq<Bytes>, last: Option<Value>, a: Value, b: Value)
    requires Made(was, ts, last, a) && Made(was, ts, last, b)
    ensures a == b
    decreases ts
  {
    hide Places;
    if ts != [] {
      var before, child :| Places(was, ts[0], before, child, a) && Made(before, ts[1..], last, child);
      var other, twin :| Places(was, ts[0], other, twin, b) && Made(other, ts[1..], last, twin);
      SameBefore(was, ts[0], before, other, child, twin, a, b);
      MadeOnce(before, ts[1..], last, child, twin);
      PlacedOnce(was, ts[0], before, child, a, b);
    }
  }

  /** `Create` leaves exactly the tree in which the pointer has been made room for and nothing else has changed. */
  lemma CreateShape(v: Value, ts: seq<Bytes>, made: Value)
    ensures made == Create(v, ts).tree <==> Made(v, ts, None, made)
  {
    hide Made, Create;
    CreateMakes(v, ts);
    if Made(v, ts, None, made) {
      MadeOnce(v, ts, None, made, Create(v, ts).tree);
    }
  }

  /** So does `Set`, with the value at the end. */
  lemma SetShape(v: Value, ts: seq<Bytes>, x: Value, made: Value)
    ensures made == Set(v, ts, x) <==> Made(v, ts, Some(x), made)
  {
    hide Made, Set;
    SetMakes(v, ts, x);
    if Made(v, ts, Some(x), made) {
      MadeOnce(v, ts, Some(x), made, Set(v, ts, x));
    }
  }

  // ---------------------------------------------------------------- the containers along the pointer

  lemma {:induction false} NullHasNothing(ts: seq<Bytes>)
    ensures Get(Null, ts) == if ts == [] then Found(Null) else Missing
  {
  }

  /**
    After `Set` there is a container at every place in front of a token: the array or object that was there, or where
    there was neither, an array when the next token is an index and an object when it is not; an array met by a token
    that is no index makes way for an object.
   */
  lemma {:induction false} SetContainers(v: Value, ts: seq<Bytes>, x: Value, n: nat)
    requires n < |ts| && forall i :: 0 <= i <= n ==> ts[i] != [0x2D]
    ensures var o, c := Get(v, ts[..n]), Get(Set(v, ts, x), ts[..n]);
            && c.Found?
            && (if o.Found? && o.value.Object? then c.value.Object?
                else if HasIndex(ts[n]) then c.value.Array?
                else c.value.Object?)
    decreases n
  {
    hide Grow, Resolve, WithChild, Create, Assign, IndexOf, ChildOf, Set;
    SetStep(v, ts, x);
    var g := Grow(v, ts[0]);
    var below := Set(ChildOf(g.v, g.i), ts[1..], x);
    if n == 0 {
      assert ts[..0] == [];
      ContainerKind(v, ts[0], below);
    } else {
      var rest := ts[1..];
      assert ts[..n][0] == ts[0] && ts[..n][1..] == rest[..n - 1] && rest[n - 1] == ts[n];
      assert forall i :: 0 <= i < |rest| ==> rest[i] == ts[i + 1];
      GrowThenResolve(v, ts[0], below);
      GrowResolves(v, ts[0]);
      SetContainers(ChildOf(g.v, g.i), rest, x, n - 1);
      ChildBack(g.v, g.i, below);
      if !g.existed {
        NewIsNull(v, ts[0]);
        NullHasNothing(rest[..n - 1]);
      }
    }
  }

  lemma ChildBack(v: Value, i: nat, c: Value)
    requires i < Width(v)
    ensures i < Width(WithChild(v, i, c)) && ChildOf(WithChild(v, i, c), i) == c
  {
  }

  lemma NewIsNull(v: Value, name: Bytes)
    requires !Grow(v, name).existed
    ensures ChildOf(Grow(v, name).v, Grow(v, name).i) == Null
  {
    hide IndexOf;
  }

  lemma ContainerKind(v: Value, name: Bytes, child: Value)
    requires name != [0x2D]
    ensures var w := WithChild(Grow(v, name).v, Grow(v, name).i, child);
            if v.Object? then w.Object? else if HasIndex(name) then w.Array? else w.Object?
  {
    hide Filled, Entered;
    GrowPlaces(v, name, child);
  }

  // ---------------------------------------------------------------- what a token leads to

  /** In an array a token leads to the element at its index, in an object to the first member of its name. */
  lemma LeadsTo(v: Value, name: Bytes, c: Value)
    ensures Get(v, [name]) == Found(c) <==>
              match v
              case Array(elements) => HasIndex(name) && IndexOf(name) < |elements| && elements[IndexOf(name)] == c
              case Object(members) => exists i: nat :: FirstUnder(members, name, i) && members[i].value == c
              case _ => false
  {
    hide IndexOf, FindMember;
    GetOne(v, name);
    if v.Object? {
      var r := FindMember(v.members, name);
      if r.Child? {
        assert FirstUnder(v.members, name, r.i);
      }
    }
  }
}
