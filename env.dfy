/**
 * `EnvFrame<T>` of src/ast/env.rs as a heap object: one frame owning a
 * name-to-value map (`frame`) and pointing to an optional parent frame
 * (`pred`).  `Chain()` is the abstract view of Scopes (this frame's map,
 * then its parent's, out to the root) and every operation is specified
 * against it.
 */
module Env {
  import opened Wrappers
  import Scopes

  class EnvFrame<T> {
    var pred: EnvFrame?<T>
    var frame: map<string, T>
    /** The frames of the chain from this one out to the root. */
    ghost var Repr: set<EnvFrame<T>>

    /** The parent links form a finite chain without cycles, and `Repr` holds exactly the frames
        of that chain.  It reads no `frame` field, so writing a binding in any frame never
        breaks it. */
    ghost predicate Valid()
      reads this`pred, this`Repr, Repr`pred, Repr`Repr
      decreases Repr
    {
      this in Repr &&
      (pred == null ==> Repr == {this}) &&
      (pred != null ==>
        pred in Repr && Repr == {this} + pred.Repr && this !in pred.Repr && pred.Valid())
    }

    /** The maps of the chain, innermost first. */
    ghost function Chain(): (c: Scopes.Chain<T>)
      reads this, Repr
      requires Valid()
      decreases Repr
      ensures |c| > 0 && c[0] == frame
    {
      [frame] + if pred == null then [] else pred.Chain()
    }

    /** The frame objects of the chain, innermost first, in step with `Chain()`. */
    ghost function Frames(): (fs: seq<EnvFrame<T>>)
      reads this, Repr
      requires Valid()
      decreases Repr
      ensures |fs| == |Chain()| && fs[0] == this
      ensures forall i :: 0 <= i < |fs| ==> fs[i] in Repr && fs[i].frame == Chain()[i]
    {
      [this] + if pred == null then [] else pred.Frames()
    }

    /** `EnvFrame::new(pred)`: a frame with an empty map in front of the parent's chain. */
    constructor (pred: EnvFrame?<T>)
      requires pred != null ==> pred.Valid()
      ensures Valid() && this.pred == pred && frame == map[]
      ensures Repr == {this} + if pred == null then {} else pred.Repr
      ensures Chain() == Scopes.NewFrame(if pred == null then [] else pred.Chain())
      ensures pred == null ==> forall name :: Get(name) == None
    {
      this.pred := pred;
      frame := map[];
      Repr := {this} + if pred == null then {} else pred.Repr;
    }

    /** `get`: this frame's binding if it has one, otherwise the parent chain's answer. */
    function Get(name: string): (r: Option<T>)
      reads this, Repr
      requires Valid()
      decreases Repr
      ensures r == Scopes.Lookup(Chain(), name)
    {
      if name in frame then Some(frame[name])
      else if pred == null then None
      else pred.Get(name)
    }

    /** `set`: insert or overwrite `name` in this frame's own map; the parent frames are untouched. */
    method Set(name: string, value: T)
      requires Valid()
      modifies this`frame
      ensures Valid()
      ensures frame == old(frame)[name := value]
      ensures Chain() == Scopes.SetLocal(old(Chain()), name, value)
      ensures Get(name) == Some(value)
      ensures forall other :: other != name ==> Get(other) == old(Get(other))
    {
      frame := frame[name := value];
    }

    /** `get_mut`: the frame whose map holds the innermost binding of `name` (the mutable slot
        is that frame's entry for `name`), or `null` when no frame of the chain binds it. */
    method GetMut(name: string) returns (slot: EnvFrame?<T>)
      requires Valid()
      decreases Repr
      ensures slot == null <==> Get(name) == None
      ensures slot != null ==>
        Scopes.FindFrame(Chain(), name).Some? &&
        slot == Frames()[Scopes.FindFrame(Chain(), name).value] &&
        name in slot.frame && Get(name) == Some(slot.frame[name])
    {
      if name in frame {
        slot := this;
      } else if pred == null {
        slot := null;
      } else {
        slot := pred.GetMut(name);
      }
    }

    /** `get_mut(name)` followed by a write through the slot: the innermost binding of `name`
        takes `value`; `found` says whether there was one, and without one nothing changes. */
    method Update(name: string, value: T) returns (found: bool)
      requires Valid()
      modifies Repr`frame
      decreases Repr
      ensures Valid()
      ensures found == old(Get(name)).Some?
      ensures Chain() == Scopes.AssignChain(old(Chain()), name, value)
      ensures Get(name) == if found then Some(value) else None
      ensures forall other :: other != name ==> Get(other) == old(Get(other))
    {
      ghost var before := Chain();
      Scopes.AssignChainLookup(before, name, value);
      Scopes.AssignChainCons(frame, if pred == null then [] else pred.Chain(), name, value);
      if name in frame {
        frame := frame[name := value];
        found := true;
      } else if pred == null {
        found := false;
      } else {
        found := pred.Update(name, value);
      }
    }
  }
}
