/**
 * The abstract view of an environment: the chain of frames seen from one
 * frame, innermost (the frame itself) first and the root frame last.  Each
 * frame is the name-to-value map that an `EnvFrame` owns (src/ast/env.rs).
 * The functions here say what `get`, `set` and `get_mut` mean on that view.
 */
module Scopes {
  import opened Wrappers

  type Chain<T> = seq<map<string, T>>

  /** `get`: this frame's own binding, or else whatever the parent chain gives. */
  function Lookup<T>(c: Chain<T>, name: string): (r: Option<T>)
    ensures r.Some? ==> exists j :: 0 <= j < |c| && name in c[j] && r.value == c[j][name]
  {
    if |c| == 0 then None
    else if name in c[0] then Some(c[0][name])
    else Lookup(c[1..], name)
  }

  /** The index of the innermost frame that binds `name`: the frame whose slot `get_mut` hands out. */
  function FindFrame<T>(c: Chain<T>, name: string): (r: Option<nat>)
    ensures r.Some? ==> r.value < |c| && name in c[r.value]
    ensures r.Some? ==> forall j :: 0 <= j < r.value ==> name !in c[j]
    ensures r.None? <==> forall j :: 0 <= j < |c| ==> name !in c[j]
  {
    if |c| == 0 then None
    else if name in c[0] then Some(0)
    else match FindFrame(c[1..], name)
      case Some(i) => Some(i + 1)
      case None => None
  }

  /** Does some frame of the chain bind `name`? */
  ghost predicate Bound<T>(c: Chain<T>, name: string)
  {
    exists j :: 0 <= j < |c| && name in c[j]
  }

  /** `EnvFrame::new(pred)`: an empty frame in front of the parent's chain. */
  function NewFrame<T>(parent: Chain<T>): (r: Chain<T>)
    ensures |r| == |parent| + 1 && r[0] == map[] && r[1..] == parent
    ensures forall name :: Lookup(r, name) == Lookup(parent, name)
  {
    [map[]] + parent
  }

  /** `set`: insert or overwrite `name` in the innermost frame only. */
  function SetLocal<T>(c: Chain<T>, name: string, v: T): (r: Chain<T>)
    requires |c| > 0
    ensures |r| == |c| && r[1..] == c[1..]
    ensures r[0].Keys == c[0].Keys + {name}
    ensures forall k :: k in c[0] && k != name ==> r[0][k] == c[0][k]
    ensures Lookup(r, name) == Some(v)
    ensures forall other :: other != name ==> Lookup(r, other) == Lookup(c, other)
  {
    var r := c[0 := c[0][name := v]];
    assert r[1..] == c[1..];
    r
  }

  /** Writing `v` through the slot `get_mut(name)` returns; no change when there is none. */
  function AssignChain<T>(c: Chain<T>, name: string, v: T): (r: Chain<T>)
    ensures |r| == |c|
    ensures forall j :: 0 <= j < |c| ==> r[j].Keys == c[j].Keys
  {
    match FindFrame(c, name)
    case None => c
    case Some(i) => c[i := c[i][name := v]]
  }

  /** `get` and `get_mut` agree: both find the binding of the innermost frame that holds `name`. */
  lemma {:induction false} LookupFindsInnermost<T>(c: Chain<T>, name: string)
    ensures FindFrame(c, name).None? ==> Lookup(c, name) == None
    ensures FindFrame(c, name).Some? ==>
      Lookup(c, name) == Some(c[FindFrame(c, name).value][name])
  {
    if |c| > 0 && name !in c[0] {
      LookupFindsInnermost(c[1..], name);
    }
  }

  /** `get` answers `None` exactly when no frame of the chain binds the name. */
  lemma {:induction false} LookupNoneIffUnbound<T>(c: Chain<T>, name: string)
    ensures Lookup(c, name).None? <==> !Bound(c, name)
  {
    LookupFindsInnermost(c, name);
    if Bound(c, name) {
      var j :| 0 <= j < |c| && name in c[j];
      assert FindFrame(c, name).Some?;
    }
  }

  /** A binding held by a frame shadows every binding of the same name further out. */
  lemma {:induction false} LookupShadows<T>(inner: Chain<T>, outer: Chain<T>, name: string)
    ensures Lookup(inner + outer, name) ==
      if Lookup(inner, name).Some? then Lookup(inner, name) else Lookup(outer, name)
  {
    if |inner| > 0 {
      assert (inner + outer)[0] == inner[0];
      if name !in inner[0] {
        assert (inner + outer)[1..] == inner[1..] + outer;
        LookupShadows(inner[1..], outer, name);
      }
    } else {
      assert inner + outer == outer;
    }
  }

  /** A second `set` of the same name in the same frame overwrites the first. */
  lemma SetLocalTwice<T>(c: Chain<T>, name: string, v1: T, v2: T)
    requires |c| > 0
    ensures SetLocal(SetLocal(c, name, v1), name, v2) == SetLocal(c, name, v2)
  {
    var once, twice := SetLocal(c, name, v1), SetLocal(c, name, v2);
    assert SetLocal(once, name, v2)[0] == twice[0];
  }

  /** Peeling an outer frame off a chain commutes with `AssignChain` when that frame does not bind `name`. */
  lemma AssignChainCons<T>(f: map<string, T>, parent: Chain<T>, name: string, v: T)
    ensures name in f ==> AssignChain([f] + parent, name, v) == [f[name := v]] + parent
    ensures name !in f ==> AssignChain([f] + parent, name, v) == [f] + AssignChain(parent, name, v)
  {
  }

  /** Writing through `get_mut`: the name is observed with the new value if and only if it was bound;
      every other name reads as before. */
  lemma AssignChainLookup<T>(c: Chain<T>, name: string, v: T)
    ensures Lookup(AssignChain(c, name, v), name) == if Bound(c, name) then Some(v) else None
    ensures forall other :: other != name ==> Lookup(AssignChain(c, name, v), other) == Lookup(c, other)
  {
    var r := AssignChain(c, name, v);
    LookupNoneIffUnbound(c, name);
    match FindFrame(c, name)
    case None =>
    case Some(i) =>
      LookupFindsInnermost(r, name);
      assert FindFrame(r, name) == Some(i) by {
        FindFrameFrames(c, r, name);
      }
      forall other | other != name
        ensures Lookup(r, other) == Lookup(c, other)
      {
        LookupFindsInnermost(c, other);
        LookupFindsInnermost(r, other);
        FindFrameFrames(c, r, other);
      }
  }

  /** Writing through `get_mut` changes only the innermost binding of `name`: every frame keeps its
      set of names, and every other entry of every frame, the shadowed outer bindings of `name`
      included, keeps its value. */
  lemma AssignChainFrames<T>(c: Chain<T>, name: string, v: T)
    ensures |AssignChain(c, name, v)| == |c|
    ensures forall j :: 0 <= j < |c| ==> AssignChain(c, name, v)[j].Keys == c[j].Keys
    ensures forall j, k :: 0 <= j < |c| && k in c[j] && (Some(j) != FindFrame(c, name) || k != name) ==>
      AssignChain(c, name, v)[j][k] == c[j][k]
    ensures !Bound(c, name) ==> AssignChain(c, name, v) == c
  {
  }

  /** Two chains with the same names in every frame have their innermost binder of a name in the same frame. */
  lemma FindFrameFrames<T>(c: Chain<T>, d: Chain<T>, name: string)
    requires |c| == |d|
    requires forall j :: 0 <= j < |c| ==> c[j].Keys == d[j].Keys
    ensures FindFrame(c, name) == FindFrame(d, name)
  {
  }
}
