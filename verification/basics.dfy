/** What several parts share: bytes, optional values, powers of two, and sequences put together. */
module Basics {
  type Byte = b: int | 0 <= b < 256 witness 0

  datatype Option<+T> = None | Some(value: T)

  function Min(a: int, b: int): int {
    if a <= b then a else b
  }

  function Pow2(n: nat): (r: nat)
    ensures r > 0
  {
    if n == 0 then 1 else 2 * Pow2(n - 1)
  }

  /** `s'` is `s` with `x` put in at some place. */
  ghost predicate PutIn<T>(s: seq<T>, x: T, s': seq<T>) {
    exists p :: 0 <= p <= |s| && s' == s[..p] + [x] + s[p..]
  }

  /** Sequences that agree on a stretch agree on every part of it. */
  lemma Within<T>(m: seq<T>, m': seq<T>, lo: nat, hi: nat, a: nat, b: nat)
    requires lo <= a <= b <= hi <= |m| == |m'| && m'[lo..hi] == m[lo..hi]
    ensures m'[a..b] == m[a..b]
  {
    forall k | a <= k < b ensures m'[k] == m[k] {
      assert m[lo..hi][k - lo] == m[k] && m'[lo..hi][k - lo] == m'[k];
    }
  }

  /** Pieces joined. */
  ghost function Flatten<T>(chunks: seq<seq<T>>): seq<T> {
    if chunks == [] then [] else chunks[0] + Flatten(chunks[1..])
  }

  lemma FlattenNone<T>()
    ensures Flatten<T>([]) == []
  {
  }

  lemma {:induction false} FlattenMore<T>(chunks: seq<seq<T>>, i: nat)
    requires i < |chunks|
    ensures Flatten(chunks[..i + 1]) == Flatten(chunks[..i]) + chunks[i]
  {
    if i == 0 {
      assert chunks[..1][1..] == [] && chunks[..0] == [];
    } else {
      FlattenMore(chunks[1..], i - 1);
      assert chunks[..i + 1][1..] == chunks[1..][..i] && chunks[..i][1..] == chunks[1..][..i - 1];
    }
  }
}
