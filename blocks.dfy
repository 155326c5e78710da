/**
 * A client of the environment: a root frame made with `EnvFrame::new(None)`
 * (src/main.rs), a child frame made with `EnvFrame::new(Some(root))`, and
 * `set`, `get` and a write through `get_mut` on them.
 */
module Blocks {
  import opened Wrappers
  import opened Env

  /** Bind `x` to 1 and `y` to 0 in the root, open a child frame, bind `x` to 2 in the child, then
      write 5 through `get_mut("y")` from the child: the child reads `x` as 2, the root still
      reads `x` as 1, and the root now reads `y` as 5. */
  method NestedBlocks() returns (inner: Option<int>, outer: Option<int>, mutated: Option<int>)
    ensures inner == Some(2) && outer == Some(1) && mutated == Some(5)
  {
    var root := new EnvFrame<int>(null);
    root.Set("x", 1);
    root.Set("y", 0);
    var child := new EnvFrame<int>(root);
    child.Set("x", 2);
    inner := child.Get("x");
    var found := child.Update("y", 5);
    outer := root.Get("x");
    mutated := root.Get("y");
  }
}
