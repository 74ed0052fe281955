/** Small types and functions that several modules share. */
module Basics {

  datatype Option<+T> = None | Some(value: T)

  datatype Result<+T> = Ok(value: T) | Error(message: string)

  type Byte = x: int | 0 <= x < 256

  function Min(a: int, b: int): int {
    if a < b then a else b
  }

  function Max(a: nat, b: nat): nat {
    if a < b then b else a
  }

  /** The sequence with a stretch of it replaced. */
  function Splice<T>(memory: seq<T>, at: nat, zs: seq<T>): (r: seq<T>)
    requires at + |zs| <= |memory|
  {
    memory[..at] + zs + memory[at + |zs|..]
  }

  lemma Associate<T>(a: seq<T>, b: seq<T>, c: seq<T>)
    ensures a + b + c == a + (b + c)
  {}

  lemma SliceWithin<T>(s: seq<T>, i: nat, j: nat, lo: nat, hi: nat)
    requires lo <= hi && i + hi <= j <= |s|
    ensures s[i..j][lo..hi] == s[i + lo..i + hi]
  {
    forall k | 0 <= k < hi - lo ensures s[i..j][lo..hi][k] == s[i + lo..i + hi][k] {
      assert s[i..j][lo..hi][k] == s[i..j][lo + k] == s[i + (lo + k)];
    }
  }

  predicate StartsWith(s: string, prefix: string) {
    |prefix| <= |s| && s[..|prefix|] == prefix
  }
}
