/** Hash functions as parameters, and what breaking one means. */
module Hashing {
  import opened Bytes

  type Digest = seq<byte>
  type HashFn = seq<byte> -> Digest

  datatype Collision = NoCollision | Collision(x: seq<byte>, y: seq<byte>)

  ghost predicate OutputLength(hash: HashFn, n: nat) {
    forall x: seq<byte> :: |hash(x)| == n
  }

  /** `c` is a genuine collision of `hash`. */
  ghost predicate Breaks(hash: HashFn, c: Collision) {
    c.Collision? && c.x != c.y && hash(c.x) == hash(c.y)
  }
}
