/** Types shared by the image-security operations: bytes, bits, RGB pixels,
    decoded row grids, and the notion of a permutation of row indices. */
module Common {

  /** An unsigned 8-bit sample or byte. */
  type byte = x: int | 0 <= x < 256

  /** One binary digit, as the characters '0' and '1' of the bit strings. */
  type Bit = x: int | 0 <= x < 2

  datatype Option<T> = None | Some(value: T)

  datatype Result<T, E> = Ok(value: T) | Err(error: E)

  /** A pixel as produced by `convert("RGB")` followed by `getdata()`. */
  datatype Rgb = Rgb(r: byte, g: byte, b: byte)

  /** A decoded image array: one entry per row, each row a sequence of
      pixels, each pixel a sequence of channel samples (1, 3 or 4 of them). */
  type Pixel = seq<byte>
  type Row = seq<Pixel>
  type Grid = seq<Row>

  /** The 16-bit end-of-message marker 1111111111111110. */
  const Marker: seq<Bit> := [1, 1, 1, 1, 1, 1, 1, 1, 1, 1, 1, 1, 1, 1, 1, 0]

  function Min(a: int, b: int): int { if a <= b then a else b }

  function Pow2(k: nat): (r: nat)
    ensures r >= 1
  {
    if k == 0 then 1 else 2 * Pow2(k - 1)
  }

  lemma {:induction false} Pow2Monotone(a: nat, b: nat)
    requires a <= b
    ensures Pow2(a) <= Pow2(b)
    decreases b
  {
    if a < b {
      Pow2Monotone(a, b - 1);
    }
  }

  /** A number of at most 8 bits is below 256. */
  lemma ByteBound(k: nat)
    requires k <= 8
    ensures Pow2(k) <= Pow2(8) == 256
  {
    Pow2Monotone(k, 8);
    assert Pow2(8) == 256;
  }

  /** Channel c (0 = R, 1 = G, 2 = B) of a pixel. */
  function Channel(p: Rgb, c: nat): byte
    requires c < 3
  {
    if c == 0 then p.r else if c == 1 then p.g else p.b
  }

  /** Sample t of the flat R, G, B, R, G, B, ... sequence of a pixel list:
      channel t mod 3 of pixel t div 3. */
  function Sample(ps: seq<Rgb>, t: nat): byte
    requires t < 3 * |ps|
  {
    Channel(ps[t / 3], t % 3)
  }

  /** `np.arange(n)`: the indices 0, 1, ..., n-1 in order. */
  function Iota(n: nat): (r: seq<nat>)
    ensures |r| == n && forall i :: 0 <= i < n ==> r[i] == i
  {
    seq(n, i => i)
  }

  /** p holds every index in [0, n) exactly once. */
  ghost predicate IsPermutation(p: seq<nat>, n: nat) {
    |p| == n && multiset(p) == multiset(Iota(n))
  }

  /** Each index below n occurs once in [0, n), and nothing else occurs. */
  lemma {:induction false} IotaCount(n: nat, x: nat)
    ensures multiset(Iota(n))[x] == if x < n then 1 else 0
  {
    if n > 0 {
      assert Iota(n) == Iota(n - 1) + [n - 1];
      IotaCount(n - 1, x);
    }
  }

  /** What being a permutation means index by index: every entry is in
      range, no two entries are equal, and every index occurs. */
  lemma PermutationFacts(p: seq<nat>, n: nat)
    requires IsPermutation(p, n)
    ensures forall i :: 0 <= i < n ==> p[i] < n
    ensures forall i, j :: 0 <= i < j < n ==> p[i] != p[j]
    ensures forall v :: 0 <= v < n ==> v in p
  {
    forall i | 0 <= i < n ensures p[i] < n {
      assert p[i] in multiset(p);
      IotaCount(n, p[i]);
    }
    forall i, j | 0 <= i < j < n ensures p[i] != p[j] {
      if p[i] == p[j] {
        var x := p[i];
        assert p == p[..j] + [p[j]] + p[j + 1..];
        assert x in p[..j];
        assert multiset(p)[x] >= 2;
        IotaCount(n, x);
        assert false;
      }
    }
    forall v | 0 <= v < n ensures v in p {
      IotaCount(n, v);
      assert v in multiset(p);
    }
  }

  /** The converse of PermutationFacts: entries in range, pairwise distinct
      and covering [0, n) make a permutation. */
  lemma PermutationIntro(p: seq<nat>, n: nat)
    requires |p| == n
    requires forall i :: 0 <= i < n ==> p[i] < n
    requires forall i, j :: 0 <= i < j < n ==> p[i] != p[j]
    requires forall v :: 0 <= v < n ==> v in p
    ensures IsPermutation(p, n)
  {
    forall x: nat ensures multiset(p)[x] == multiset(Iota(n))[x] {
      DistinctCount(p, x);
      IotaCount(n, x);
    }
    assert forall x :: multiset(p)[x] == multiset(Iota(n))[x];
  }

  /** In a sequence without repetitions every value occurs at most once. */
  lemma {:induction false} DistinctCount(q: seq<nat>, x: nat)
    requires forall i, j :: 0 <= i < j < |q| ==> q[i] != q[j]
    ensures multiset(q)[x] == if x in q then 1 else 0
  {
    if q != [] {
      var front := q[..|q| - 1];
      assert q == front + [q[|q| - 1]];
      DistinctCount(front, x);
      if q[|q| - 1] == x {
        assert x !in front;
      }
    }
  }

  /** Exchanging two entries, as numpy's shuffle does at each step. */
  function Swap<T>(s: seq<T>, i: nat, j: nat): (r: seq<T>)
    requires i < |s| && j < |s|
    ensures |r| == |s| && r[i] == s[j] && r[j] == s[i]
    ensures forall k :: 0 <= k < |s| && k != i && k != j ==> r[k] == s[k]
  {
    s[i := s[j]][j := s[i]]
  }

  /** A swap rearranges a sequence without changing what it holds. */
  lemma SwapMultiset<T>(s: seq<T>, i: nat, j: nat)
    requires i < |s| && j < |s|
    ensures multiset(Swap(s, i, j)) == multiset(s)
  {
    var t := s[i := s[j]];
    assert multiset(t) == multiset(s) - multiset{s[i]} + multiset{s[j]};
    assert multiset(t[j := s[i]]) == multiset(t) - multiset{t[j]} + multiset{s[i]};
  }

  /** `arr[indices]` on the first axis: row k of the result is row
      indices[k] of the input. */
  function Gather<T>(g: seq<T>, indices: seq<nat>): (r: seq<T>)
    requires forall k :: 0 <= k < |indices| ==> indices[k] < |g|
    ensures |r| == |indices|
    ensures forall k :: 0 <= k < |indices| ==> r[k] == g[indices[k]]
  {
    seq(|indices|, k requires 0 <= k < |indices| => g[indices[k]])
  }
}
