/** secure_image_backend/decryption.py: AES-CBC input framing and the
    inverse of the row-permutation cipher. */
module Decryption {
  import opened Common
  import opened Encryption

  // ---------------------------------------------------------------------
  // decrypt_image_aes
  // ---------------------------------------------------------------------

  /** The ways the CBC cipher object refuses its input. */
  datatype AesError =
    | IvLengthError      // `enc_data[:16]` is shorter than 16 bytes
    | NotBlockAligned    // `enc_data[16:]` is not a whole number of blocks

  /** `decrypt_image_aes`: the first 16 bytes are the IV, the rest is
      decrypted as it is. No padding is removed. */
  function DecryptAes(encData: seq<byte>, decrypt: Cipher): (r: Result<seq<byte>, AesError>)
    ensures r.Ok? <==> |encData| >= 16 && (|encData| - 16) % 16 == 0
    ensures r.Ok? ==> r.value == decrypt(encData[..16], encData[16..])
    ensures |encData| < 16 ==> r == Err(IvLengthError)
  {
    var iv := encData[..Min(16, |encData|)];
    var body := if |encData| >= 16 then encData[16..] else [];
    if |iv| != 16 then Err(IvLengthError)
    else if |body| % 16 != 0 then Err(NotBlockAligned)
    else Ok(decrypt(iv, body))
  }

  /** If the decryptor undoes the encryptor for this IV, decrypting what
      `encrypt_image_aes` produced gives back the PADDED image bytes: the
      trailing spaces are not stripped. */
  lemma AesRoundTrip(imageBytes: seq<byte>, iv: seq<byte>, encrypt: Cipher, decrypt: Cipher)
    requires |iv| == 16
    requires |encrypt(iv, Padded(imageBytes))| == |Padded(imageBytes)|
    requires decrypt(iv, encrypt(iv, Padded(imageBytes))) == Padded(imageBytes)
    ensures DecryptAes(EncryptAes(imageBytes, iv, encrypt), decrypt) == Ok(Padded(imageBytes))
  {
    var enc := EncryptAes(imageBytes, iv, encrypt);
    assert enc[..16] == iv;
    assert enc[16..] == encrypt(iv, Padded(imageBytes));
  }

  // ---------------------------------------------------------------------
  // decrypt_image_shuffle
  // ---------------------------------------------------------------------

  /** The first position of v in p, or |p| when v does not occur. */
  function IndexOf(p: seq<nat>, v: nat): (k: nat)
    ensures k <= |p|
    ensures k < |p| ==> p[k] == v
    ensures forall i :: 0 <= i < k ==> p[i] != v
    ensures v in p ==> k < |p|
  {
    if p == [] then 0
    else if p[0] == v then 0
    else 1 + IndexOf(p[1..], v)
  }

  /** The inverse permutation by its definition: position j holds the
      place where j occurs in p. */
  function Inverse(p: seq<nat>): (q: seq<nat>)
    ensures |q| == |p|
    ensures forall j :: 0 <= j < |p| && j in p ==> q[j] < |p| && p[q[j]] == j
    ensures forall j :: 0 <= j < |p| && j !in p ==> q[j] == |p|
  {
    seq(|p|, j requires 0 <= j < |p| => IndexOf(p, j))
  }

  /** The inverse of a permutation of [0, n) undoes it on both sides and is
      itself a permutation of [0, n). */
  lemma InverseIsInverse(p: seq<nat>, n: nat)
    requires IsPermutation(p, n)
    ensures |Inverse(p)| == n
    ensures forall i :: 0 <= i < n ==> p[i] < n && Inverse(p)[p[i]] == i
    ensures forall j :: 0 <= j < n ==> Inverse(p)[j] < n && p[Inverse(p)[j]] == j
    ensures IsPermutation(Inverse(p), n)
  {
    PermutationFacts(p, n);
    var q := Inverse(p);
    forall j | 0 <= j < n ensures q[j] < n && p[q[j]] == j {
      assert j in p;
    }
    forall i | 0 <= i < n ensures q[p[i]] == i {
      var k := IndexOf(p, p[i]);
      assert k < n && p[k] == p[i];
    }
    forall v | 0 <= v < n ensures v in q {
      assert q[p[v]] == v;
    }
    PermutationIntro(q, n);
  }

  /** The inverse map: an array of zeros as long as the index list, then,
      for every position i, the entry at indices[i] set to i. */
  method InverseMap(indices: seq<nat>) returns (unshuffleMap: seq<nat>)
    requires IsPermutation(indices, |indices|)
    ensures |unshuffleMap| == |indices|
    ensures forall i :: 0 <= i < |indices| ==> indices[i] < |indices| && unshuffleMap[indices[i]] == i
    ensures forall j :: 0 <= j < |indices| ==> unshuffleMap[j] < |indices| && indices[unshuffleMap[j]] == j
    ensures unshuffleMap == Inverse(indices)
  {
    var n := |indices|;
    PermutationFacts(indices, n);
    var m := new nat[n](_ => 0);
    for i := 0 to n
      invariant forall k :: 0 <= k < i ==> m[indices[k]] == k
    {
      m[indices[i]] := i;
    }
    unshuffleMap := m[..];
    InverseIsInverse(indices, n);
    forall j | 0 <= j < n ensures unshuffleMap[j] == Inverse(indices)[j] {
      var k := Inverse(indices)[j];
      assert indices[k] == j;
    }
  }

  /** The grid `decrypt_image_shuffle` builds: the rows gathered by the
      inverse of the key's permutation. */
  function Unshuffle(arr: Grid, key: Seed, rng: Rng): (r: Grid)
    ensures |r| == |arr|
    ensures forall i :: 0 <= i < |arr| ==> r[Perm(rng, key, |arr|)[i]] == arr[i]
  {
    var p := Perm(rng, key, |arr|);
    InverseIsInverse(p, |arr|);
    Gather(arr, Inverse(p))
  }

  /** `decrypt_image_shuffle` on the decoded array: rebuild the key's index
      list, scatter it into its inverse, gather the rows by the inverse. */
  method DecryptShuffle(arr: Grid, key: Seed, rng: Rng) returns (decryptedArr: Grid)
    ensures decryptedArr == Unshuffle(arr, key, rng)
    ensures |decryptedArr| == |arr|
    ensures forall i :: 0 <= i < |arr| ==> decryptedArr[Perm(rng, key, |arr|)[i]] == arr[i]
    ensures multiset(decryptedArr) == multiset(arr)
  {
    var h := |arr|;
    var indices := new nat[h](i => i);
    assert indices[..] == Iota(h);
    ShuffleInPlace(indices, key, rng);
    var p := indices[..];
    assert p == Perm(rng, key, h);
    var unshuffleMap := InverseMap(p);
    decryptedArr := Gather(arr, unshuffleMap);
    UnshuffleRearranges(arr, key, rng);
  }

  /** Unshuffling undoes shuffling, for every grid and every key. */
  lemma UnshuffleShuffle(arr: Grid, key: Seed, rng: Rng)
    ensures Unshuffle(Shuffle(arr, key, rng), key, rng) == arr
  {
    var h := |arr|;
    var p := Perm(rng, key, h);
    InverseIsInverse(p, h);
    var s := Shuffle(arr, key, rng);
    var u := Unshuffle(s, key, rng);
    forall j | 0 <= j < h ensures u[j] == arr[j] {
      assert u[j] == s[Inverse(p)[j]];
    }
  }

  /** Shuffling undoes unshuffling, for every grid and every key. */
  lemma ShuffleUnshuffle(arr: Grid, key: Seed, rng: Rng)
    ensures Shuffle(Unshuffle(arr, key, rng), key, rng) == arr
  {
    var h := |arr|;
    var p := Perm(rng, key, h);
    InverseIsInverse(p, h);
    var u := Unshuffle(arr, key, rng);
    var s := Shuffle(u, key, rng);
    forall i | 0 <= i < h ensures s[i] == arr[i] {
      assert s[i] == u[p[i]];
    }
  }

  /** Under any key, right or wrong, unshuffling yields a well-formed
      rearrangement of the rows: same height, same multiset of rows.
      Nothing signals a wrong key. */
  lemma UnshuffleRearranges(arr: Grid, key: Seed, rng: Rng)
    ensures |Unshuffle(arr, key, rng)| == |arr|
    ensures multiset(Unshuffle(arr, key, rng)) == multiset(arr)
    ensures forall j :: 0 <= j < |arr| ==> Unshuffle(arr, key, rng)[j] in arr
  {
    var u := Unshuffle(arr, key, rng);
    ShuffleUnshuffle(arr, key, rng);
    ShuffleRearranges(u, key, rng);
    assert multiset(u) == multiset(Shuffle(u, key, rng)) == multiset(arr);
    forall j | 0 <= j < |arr| ensures u[j] in arr {
      assert u[j] in multiset(u);
    }
  }
}
