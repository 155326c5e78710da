# Scope-chain environment of the `dust` interpreter

This project models `src/ast/env.rs`, the scope-chain environment of the `dust` interpreter. It is written in Dafny and proved there. An `EnvFrame<T>` is one frame. It owns a name-to-value map (`frame`) and may point to a parent frame (`pred`). The frame has three operations:
- `set` binds a name in this frame only.
- `get` looks a name up in this frame, then in the parent chain.
- `get_mut` returns a mutable slot for the innermost binding of a name.

The model has two layers.

- `Scopes` (scopes.dfy) is the abstract view. A chain is a `seq<map<string, T>>`, innermost frame first and root frame last. `Lookup` is `get`. `FindFrame` is the frame that `get_mut` targets. `NewFrame`, `SetLocal` and `AssignChain` are `new`, `set` and a write through `get_mut`. The lemmas state lookup order, shadowing, overwriting, and what a write through `get_mut` does and does not change.
- `Env` (env.dfy) is the frame as a heap object. `Env.EnvFrame` is a class with the fields `pred` and `frame`. `Valid()` says that the parent links form a finite chain with no cycles, and that the ghost footprint `Repr` holds exactly the frames of that chain. `Chain()` gives the frame's abstract view. Each operation is specified against that view. `Set` changes only this frame's `frame` field. `Update` changes `frame` fields and nothing else.

`Blocks` (blocks.dfy) is a client that uses these contracts. It makes a root frame and a child frame, then calls `set`, `get` and a write through `get_mut` on them.

## Model

| member | source | states |
|---|---|---|
| `Scopes.Lookup` | src/ast/env.rs:25-27 | the definition of `get` on a chain: this frame's binding, or else the parent chain's answer. Its contract says any value found is the entry of some frame of the chain; the `Lookup*` lemmas give the rest of its properties |
| `Scopes.AssignChain` | src/ast/env.rs:28-33 | the definition of a write through the slot `get_mut` returns: the binding in the frame `FindFrame` picks gets the new value, and with no such frame nothing changes. Its contract says the chain keeps its length and every frame keeps its set of names; the `AssignChain*` lemmas give the rest of its properties |
| `Scopes.NewFrame` | src/ast/env.rs:14-19 | a new frame holds an empty map in front of its parent's chain, and every lookup through it gives the parent's answer |
| `Scopes.SetLocal` | src/ast/env.rs:22-24 | `set` changes only the innermost frame and only the entry for `name`; afterwards `name` reads as the new value whatever outer frames bind, and every other name reads as before |
| `Scopes.SetLocalTwice` | src/ast/env.rs:23 | a second `set` of the same name in the same frame overwrites the first |
| `Scopes.FindFrame` | src/ast/env.rs:28-33 | the frame `get_mut` targets is the innermost frame that binds the name; there is none exactly when no frame binds it |
| `Scopes.LookupFindsInnermost` | src/ast/env.rs:25-33 | `get` and `get_mut` agree: `get` returns the value of the binding in the frame that `get_mut` targets, and `None` when there is no such frame |
| `Scopes.LookupNoneIffUnbound` | src/ast/env.rs:26 | `get` returns `None` if and only if no frame of the chain binds the name |
| `Scopes.LookupShadows` | src/ast/env.rs:26 | for any split of a chain into inner and outer frames, a binding in the inner frames shadows the outer ones; only when the inner frames have none is the outer frames' answer used |
| `Scopes.AssignChainCons` | src/ast/env.rs:29-31 | a write through `get_mut` lands in this frame when it binds the name; otherwise it leaves this frame alone and is the parent chain's write |
| `Scopes.AssignChainLookup` | src/ast/env.rs:28-33 | after a write through `get_mut`, the name reads as the new value if and only if it was bound before; every other name reads as before |
| `Scopes.AssignChainFrames` | src/ast/env.rs:28-33 | a write through `get_mut` creates no binding in any frame and changes only the innermost binding of the name; other frames, other names and the shadowed outer bindings keep their values, and with no binding the chain is unchanged |
| `Env.EnvFrame.constructor` | src/ast/env.rs:14-19 | `new(pred)` keeps the given parent and has an empty map; its chain is `NewFrame` of the parent's, so a root frame answers `None` for every name |
| `Env.EnvFrame.Get` | src/ast/env.rs:25-27 | `get` on a frame object is `Lookup` on that frame's chain |
| `Env.EnvFrame.Set` | src/ast/env.rs:22-24 | `set` modifies only this frame's map and inserts or overwrites `name` there; the chain becomes `SetLocal` of the old chain, `get(name)` returns the value, and `get` of any other name is unchanged |
| `Env.EnvFrame.GetMut` | src/ast/env.rs:28-33 | `get_mut` finds a slot exactly when `get` finds a value; the slot is the name's entry in the innermost frame of the chain that binds it, and it holds the value `get` returns |
| `Env.EnvFrame.Update` | src/ast/env.rs:28-33 | writing through `get_mut` changes only `frame` fields; the chain becomes `AssignChain` of the old chain; `found` is whether `get` found the name before; afterwards the name reads as the new value, or as `None` when it was unbound, and every other name reads as before |
| `Blocks.NestedBlocks` | src/ast/env.rs:14-33 | in nested frames, an inner `set` shadows an outer binding and leaves it intact, and a write through `get_mut` from the inner frame updates the outer frame's binding |

## Left out

- The `Env<T>` trait (src/ast/env.rs:3-7) is not a separate type. `EnvFrame` is its only implementation, so the parent, a `dyn Env<T>` in the source, is modelled as another `EnvFrame`.
- Rust lifetimes and borrowing are not modelled: the `'a` lifetime, the exclusive `&'a mut` borrow of the parent, and the exclusive borrow of the slot that `get_mut` returns. In Dafny, other code may hold references to a parent while a child frame exists.
- `HashMap` internals, hashing and iteration order, are not modelled. A frame's map is a Dafny `map<string, T>`.
- Env.EnvFrame.GetMut returns the frame object that owns the slot, not a `&mut T`. The slot is that frame's entry for the name. Env.EnvFrame.Update performs the lookup and the write in the same recursive walk. The source instead returns the slot, and the caller writes through it later.
- src/main.rs is not part of this model. It holds argument parsing, file reading and the call into a generated parser. Its only use of the environment is creating the root frame with `EnvFrame::new(None)`.
- The syntax tree in src/ast.rs and the evaluator behind `eval` are not part of this model. src/ast.rs declares only datatypes, with no functions. `Expr` has `i32` literals, identifiers, binary operators and statement sequences with an optional tail. `Stmt` has `Let`, `Mut`, `Eval`, `While`, `If` and `Print`. `BinOp` has the ten arithmetic and comparison operators. The evaluator that gives these their meaning is not among the source files, so no evaluation semantics are modelled.
