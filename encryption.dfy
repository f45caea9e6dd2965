/** secure_image_backend/encryption.py: space padding, the AES-CBC output
    framing, and the row-permutation cipher. */
module Encryption {
  import opened Common

  // ---------------------------------------------------------------------
  // pad
  // ---------------------------------------------------------------------

  /** n bytes 0x20 (ASCII space). */
  function Spaces(n: nat): (r: seq<byte>)
    ensures |r| == n && forall k :: 0 <= k < n ==> r[k] == 0x20
  {
    seq(n, _ => 0x20)
  }

  /** The value `pad` returns: the input followed by the fewest spaces that
      make the length a multiple of 16. */
  function Padded(data: seq<byte>): (r: seq<byte>)
    ensures |data| <= |r| < |data| + 16
    ensures |r| % 16 == 0
    ensures r[..|data|] == data
    ensures forall k :: |data| <= k < |r| ==> r[k] == 0x20
    ensures |data| % 16 == 0 ==> r == data
  {
    data + Spaces((16 - |data| % 16) % 16)
  }

  /** `pad`: append one space at a time while the length is not a multiple
      of 16. */
  method Pad(data: seq<byte>) returns (padded: seq<byte>)
    ensures padded == Padded(data)
  {
    padded := data;
    while |padded| % 16 != 0
      invariant |data| <= |padded| <= |Padded(data)|
      invariant padded == data + Spaces(|padded| - |data|)
      decreases |Padded(data)| - |padded|
    {
      padded := padded + [0x20];
    }
  }

  /** Padding is idempotent: a padded buffer is already aligned. */
  lemma PadIdempotent(data: seq<byte>)
    ensures Padded(Padded(data)) == Padded(data)
  {
  }

  // ---------------------------------------------------------------------
  // encrypt_image_aes
  // ---------------------------------------------------------------------

  /** AES-CBC under the key PBKDF2 derives from the password: given the IV
      and an input, the output. The cipher itself is not part of this model. */
  type Cipher = (seq<byte>, seq<byte>) -> seq<byte>

  /** `encrypt_image_aes`: the 16-byte IV the cipher object chose, followed
      by the encryption of the padded image bytes. */
  function EncryptAes(imageBytes: seq<byte>, iv: seq<byte>, encrypt: Cipher): (r: seq<byte>)
    requires |iv| == 16
    ensures |r| >= 16 && r[..16] == iv
    ensures r[16..] == encrypt(iv, Padded(imageBytes))
  {
    iv + encrypt(iv, Padded(imageBytes))
  }

  // ---------------------------------------------------------------------
  // encrypt_image_shuffle
  // ---------------------------------------------------------------------

  /** A numpy shuffle key: `np.random.seed` accepts 0 <= key < 2^32. */
  type Seed = x: int | 0 <= x < 0x1_0000_0000

  /** The bounded draw `random_interval(i)` that numpy's legacy generator,
      seeded with key, makes when shuffling n elements reaches position i.
      The Mersenne Twister behind it is not part of this model. */
  type Rng = (Seed, nat, nat) -> nat

  /** The partner index at position i, in [0, i]: numpy's draw already lies
      there, so the reduction modulo i + 1 leaves it unchanged. */
  function Draw(rng: Rng, key: Seed, n: nat, i: nat): (j: nat)
    ensures j <= i
  {
    rng(key, n, i) % (i + 1)
  }

  /** numpy's shuffle of a one-dimensional array, from position hi - 1 down
      to position 1: exchange position i with the drawn position j <= i.
      The result is a rearrangement of its input. */
  function Shuffled(s: seq<nat>, hi: nat, rng: Rng, key: Seed, n: nat): (r: seq<nat>)
    requires hi <= |s|
    ensures |r| == |s| && multiset(r) == multiset(s)
    decreases hi
  {
    if hi <= 1 then s
    else
      var j := Draw(rng, key, n, hi - 1);
      SwapMultiset(s, hi - 1, j);
      Shuffled(Swap(s, hi - 1, j), hi - 1, rng, key, n)
  }

  /** The row order chosen for key and height h: `np.arange(h)` shuffled
      after `np.random.seed(key)`. It depends on nothing but (key, h), and
      it is a permutation of [0, h). */
  function Perm(rng: Rng, key: Seed, h: nat): (p: seq<nat>)
    ensures IsPermutation(p, h)
    ensures forall i :: 0 <= i < h ==> p[i] < h
    ensures forall i, j :: 0 <= i < j < h ==> p[i] != p[j]
  {
    var p := Shuffled(Iota(h), h, rng, key, h);
    PermutationFacts(p, h);
    p
  }

  /** `np.random.shuffle(indices)`: numpy's shuffle, in place. */
  method ShuffleInPlace(indices: array<nat>, key: Seed, rng: Rng)
    modifies indices
    ensures indices[..] == Shuffled(old(indices[..]), indices.Length, rng, key, indices.Length)
  {
    var n := indices.Length;
    var i := n;
    while i > 1
      invariant 0 <= i <= n
      invariant Shuffled(indices[..], i, rng, key, n) == Shuffled(old(indices[..]), n, rng, key, n)
    {
      i := i - 1;
      var j := Draw(rng, key, n, i);
      indices[i], indices[j] := indices[j], indices[i];
    }
  }

  /** The grid `encrypt_image_shuffle` builds: row i is input row Perm[i]. */
  function Shuffle(arr: Grid, key: Seed, rng: Rng): (r: Grid)
    ensures |r| == |arr|
    ensures forall i :: 0 <= i < |arr| ==> r[i] == arr[Perm(rng, key, |arr|)[i]]
  {
    Gather(arr, Perm(rng, key, |arr|))
  }

  /** `encrypt_image_shuffle` on the decoded array: the row indices are
      shuffled in place under key, then the rows are gathered by them. */
  method EncryptShuffle(arr: Grid, key: Seed, rng: Rng) returns (shuffledArr: Grid)
    ensures shuffledArr == Shuffle(arr, key, rng)
    ensures |shuffledArr| == |arr|
    ensures forall i :: 0 <= i < |arr| ==> shuffledArr[i] == arr[Perm(rng, key, |arr|)[i]]
    ensures multiset(shuffledArr) == multiset(arr)
  {
    var h := |arr|;
    var indices := new nat[h](i => i);
    assert indices[..] == Iota(h);
    ShuffleInPlace(indices, key, rng);
    var p := indices[..];
    assert p == Perm(rng, key, h);
    shuffledArr := Gather(arr, p);
    ShuffleRearranges(arr, key, rng);
  }

  /** Gathering by a swapped index list swaps the gathered rows. */
  lemma GatherSwap<T>(g: seq<T>, s: seq<nat>, i: nat, j: nat)
    requires i < |s| && j < |s|
    requires forall k :: 0 <= k < |s| ==> s[k] < |g|
    ensures Gather(g, Swap(s, i, j)) == Swap(Gather(g, s), i, j)
  {
  }

  /** Gathering by a shuffled index list holds the same rows as gathering
      by the list before the shuffle. */
  lemma {:induction false} GatherShuffled<T>(g: seq<T>, s: seq<nat>, hi: nat, rng: Rng, key: Seed, n: nat)
    requires hi <= |s|
    requires forall k :: 0 <= k < |s| ==> s[k] < |g|
    ensures forall k :: 0 <= k < |s| ==> Shuffled(s, hi, rng, key, n)[k] < |g|
    ensures multiset(Gather(g, Shuffled(s, hi, rng, key, n))) == multiset(Gather(g, s))
    decreases hi
  {
    var r := Shuffled(s, hi, rng, key, n);
    forall k | 0 <= k < |s| ensures r[k] < |g| {
      assert r[k] in multiset(s);
    }
    if hi > 1 {
      var j := Draw(rng, key, n, hi - 1);
      var s' := Swap(s, hi - 1, j);
      GatherShuffled(g, s', hi - 1, rng, key, n);
      GatherSwap(g, s, hi - 1, j);
      SwapMultiset(Gather(g, s), hi - 1, j);
    }
  }

  /** The shuffle only rearranges rows: same height, same multiset of rows,
      every output row an unmodified input row. */
  lemma ShuffleRearranges(arr: Grid, key: Seed, rng: Rng)
    ensures |Shuffle(arr, key, rng)| == |arr|
    ensures multiset(Shuffle(arr, key, rng)) == multiset(arr)
    ensures forall i :: 0 <= i < |arr| ==> Shuffle(arr, key, rng)[i] in arr
  {
    var h := |arr|;
    GatherShuffled(arr, Iota(h), h, rng, key, h);
    assert Gather(arr, Iota(h)) == arr;
  }

  /** A grid of height 0 or 1 is left as it is. */
  lemma ShuffleShortIsIdentity(arr: Grid, key: Seed, rng: Rng)
    requires |arr| <= 1
    ensures Shuffle(arr, key, rng) == arr
  {
  }
}
