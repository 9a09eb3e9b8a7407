/** What several of the models share. */
module Basics {

  type Byte = b: int | 0 <= b < 256

  /** The null pointer: nodes, tasks and addresses are other numbers. */
  const NULL := -1

  function Min(a: nat, b: nat): nat { if a < b then a else b }
}
