/** secure_image_backend/stego_extract.py: collecting least-significant
    bits until the end marker shows up, cutting at its first occurrence and
    decoding 8 bits at a time; and the round trip with the hiding side. */
module StegoExtract {
  import opened Common
  import opened StegoHide

  // ---------------------------------------------------------------------
  // Substring search on bit strings
  // ---------------------------------------------------------------------

  /** pat occurs in s starting at position k. */
  predicate OccursAt(s: seq<Bit>, pat: seq<Bit>, k: nat) {
    k + |pat| <= |s| && s[k..k + |pat|] == pat
  }

  /** The first occurrence of pat in s at or after position k. */
  function FindFrom(s: seq<Bit>, pat: seq<Bit>, k: nat): (r: Option<nat>)
    ensures r.Some? ==> k <= r.value && OccursAt(s, pat, r.value)
    ensures r.Some? ==> forall q :: k <= q < r.value ==> !OccursAt(s, pat, q)
    ensures r.None? ==> forall q :: k <= q ==> !OccursAt(s, pat, q)
    decreases |s| - k
  {
    if k + |pat| > |s| then None
    else if s[k..k + |pat|] == pat then Some(k)
    else FindFrom(s, pat, k + 1)
  }

  /** The first occurrence of pat in s, if any. */
  function Find(s: seq<Bit>, pat: seq<Bit>): Option<nat> {
    FindFrom(s, pat, 0)
  }

  /** Python's `pat in s` on the bit strings: some position holds an
      occurrence. */
  predicate Contains(s: seq<Bit>, pat: seq<Bit>)
    ensures Contains(s, pat) ==> |pat| <= |s|
    ensures pat == [] ==> Contains(s, pat)
  {
    assert pat == [] ==> OccursAt(s, pat, 0);
    exists k :: 0 <= k <= |s| - |pat| && OccursAt(s, pat, k)
  }

  /** The `in` test and the search agree: the search finds an occurrence
      exactly when there is one. */
  lemma ContainsIff(s: seq<Bit>, pat: seq<Bit>)
    ensures Contains(s, pat) <==> Find(s, pat).Some?
  {
    if Find(s, pat).Some? {
      var k := Find(s, pat).value;
      assert OccursAt(s, pat, k);
    }
  }

  /** The first piece of splitting s at the marker: everything before the
      first marker, or all of s when the marker does not occur. */
  function BeforeMarker(s: seq<Bit>): (r: seq<Bit>)
    ensures |r| <= |s| && r == s[..|r|]
    ensures !Contains(r, Marker)
    ensures Contains(s, Marker) ==> OccursAt(s, Marker, |r|)
    ensures !Contains(s, Marker) ==> r == s
  {
    ContainsIff(s, Marker);
    match Find(s, Marker)
    case Some(p) =>
      assert forall q :: 0 <= q ==> OccursAt(s[..p], Marker, q) ==> OccursAt(s, Marker, q) by {
        forall q | 0 <= q && OccursAt(s[..p], Marker, q) ensures OccursAt(s, Marker, q) {
          assert s[..p][q..q + 16] == s[q..q + 16];
        }
      }
      s[..p]
    case None => s
  }

  // ---------------------------------------------------------------------
  // Decoding: every group of 8 bits, and a shorter last group, read as a
  // number most significant bit first and turned into one character
  // ---------------------------------------------------------------------

  /** `int(bits, 2)`: the number the bits spell, most significant first. */
  function BitsValue(bits: seq<Bit>): (v: nat)
    ensures v < Pow2(|bits|)
  {
    if bits == [] then 0 else 2 * BitsValue(bits[..|bits| - 1]) + bits[|bits| - 1]
  }

  /** `chr(int(group, 2))` for a group of at most 8 bits. */
  function GroupChar(group: seq<Bit>): (c: char)
    requires |group| <= 8
    ensures c as int == BitsValue(group) && c as int < 256
  {
    ByteBound(|group|);
    BitsValue(group) as char
  }

  /** Group k of the bits: bits 8k up to 8k + 8, fewer at the end. */
  function Group(bits: seq<Bit>, k: nat): (g: seq<Bit>)
    requires 8 * k < |bits|
    ensures 1 <= |g| <= 8
  {
    bits[8 * k .. Min(8 * k + 8, |bits|)]
  }

  /** The characters decoded from groups of 8 bits; a shorter last group is
      decoded too, as the smaller number it spells. */
  function DecodeGroups(bits: seq<Bit>): (msg: string)
    ensures |msg| == (|bits| + 7) / 8
    decreases |bits|
  {
    if bits == [] then []
    else if |bits| <= 8 then [GroupChar(bits)]
    else [GroupChar(bits[..8])] + DecodeGroups(bits[8..])
  }

  /** Every decoded character has a code below 256: no group is wider than
      8 bits. */
  lemma {:induction false} DecodeGroupsNarrow(bits: seq<Bit>)
    ensures forall k :: 0 <= k < |DecodeGroups(bits)| ==> DecodeGroups(bits)[k] as int < 256
    decreases |bits|
  {
    if |bits| > 8 {
      DecodeGroupsNarrow(bits[8..]);
      assert DecodeGroups(bits) == [GroupChar(bits[..8])] + DecodeGroups(bits[8..]);
    }
  }

  /** Character k of the decoding is the value of group k. */
  lemma {:induction false} DecodeGroupsAt(bits: seq<Bit>, k: nat)
    requires k < (|bits| + 7) / 8
    ensures 8 * k < |bits| && DecodeGroups(bits)[k] as int == BitsValue(Group(bits, k))
    decreases k
  {
    if k == 0 {
      assert Group(bits, 0) == if |bits| <= 8 then bits else bits[..8];
    } else {
      DecodeGroupsAt(bits[8..], k - 1);
      GroupShift(bits, k);
    }
  }

  /** Group k of bits is group k - 1 of what follows the first 8 bits. */
  lemma GroupShift(bits: seq<Bit>, k: nat)
    requires 1 <= k && 8 * k < |bits|
    ensures Group(bits[8..], k - 1) == Group(bits, k)
  {
    var a := 8 * (k - 1);
    var b := Min(a + 8, |bits| - 8);
    assert a + 8 == 8 * k && b + 8 == Min(8 * k + 8, |bits|);
    assert bits[8..][a..b] == bits[8 + a .. 8 + b];
  }

  // ---------------------------------------------------------------------
  // Collecting the least-significant bits
  // ---------------------------------------------------------------------

  /** The least-significant bits of all samples: those of R, G and B
      for every pixel in order. */
  function Lsbs(ps: seq<Rgb>): (r: seq<Bit>)
    ensures |r| == 3 * |ps|
    ensures forall k :: 0 <= k < |ps| ==>
      r[3 * k] == ps[k].r % 2 && r[3 * k + 1] == ps[k].g % 2 && r[3 * k + 2] == ps[k].b % 2
  {
    var r := seq(3 * |ps|, t requires 0 <= t < 3 * |ps| => Sample(ps, t) % 2);
    SampleBitsByPixel(ps, r);
    r
  }

  /** Bit t of r being bit 0 of sample t puts the R, G and B bits of pixel
      k at positions 3k, 3k + 1 and 3k + 2. */
  lemma SampleBitsByPixel(ps: seq<Rgb>, r: seq<Bit>)
    requires |r| == 3 * |ps|
    requires forall t :: 0 <= t < 3 * |ps| ==> r[t] == Sample(ps, t) % 2
    ensures forall k :: 0 <= k < |ps| ==>
      r[3 * k] == ps[k].r % 2 && r[3 * k + 1] == ps[k].g % 2 && r[3 * k + 2] == ps[k].b % 2
  {
    forall k | 0 <= k < |ps|
      ensures r[3 * k] == ps[k].r % 2 && r[3 * k + 1] == ps[k].g % 2 && r[3 * k + 2] == ps[k].b % 2
    {
      DivMod3(k, 3 * k);
      DivMod3(k, 3 * k + 1);
      DivMod3(k, 3 * k + 2);
    }
  }

  /** One more pixel appends its three least-significant bits. */
  lemma LsbsSnoc(ps: seq<Rgb>, i: nat)
    requires i < |ps|
    ensures Lsbs(ps[..i + 1]) == Lsbs(ps[..i]) + [ps[i].r % 2, ps[i].g % 2, ps[i].b % 2]
  {
    var a := Lsbs(ps[..i + 1]);
    var b := Lsbs(ps[..i]) + [ps[i].r % 2, ps[i].g % 2, ps[i].b % 2];
    forall t | 0 <= t < 3 * i + 3 ensures a[t] == b[t] {
      if t >= 3 * i {
        DivMod3(i, t);
      }
    }
  }

  /** The bits of the first k pixels are the first 3k bits. */
  lemma LsbsPrefix(ps: seq<Rgb>, k: nat)
    requires k <= |ps|
    ensures Lsbs(ps[..k]) == Lsbs(ps)[..3 * k]
  {
  }

  /** After reading the first q pixels, the bits read so far contain the
      marker, which the scan tests after every pixel. */
  predicate MarkerSeen(ps: seq<Rgb>, q: nat)
    requires q <= |ps|
  {
    Contains(Lsbs(ps[..q]), Marker)
  }

  /** The number of pixels the scan reads, starting at pixel k: it stops
      after the first pixel at which the bits read so far contain the
      marker, or at the end of the image. */
  function StopPixel(ps: seq<Rgb>, k: nat): (s: nat)
    requires k <= |ps|
    ensures k <= s <= |ps|
    decreases |ps| - k
  {
    if k == |ps| then k
    else if MarkerSeen(ps, k + 1) then k + 1
    else StopPixel(ps, k + 1)
  }

  /** The scan stops at the first pixel after which the marker has been
      read, and reads the whole image only when that never happens. */
  lemma {:induction false} StopPixelFirst(ps: seq<Rgb>, k: nat)
    requires k <= |ps|
    ensures forall q :: k < q < StopPixel(ps, k) ==> !MarkerSeen(ps, q)
    ensures StopPixel(ps, k) == |ps| || (k < StopPixel(ps, k) && MarkerSeen(ps, StopPixel(ps, k)))
    decreases |ps| - k
  {
    if k < |ps| && !MarkerSeen(ps, k + 1) {
      StopPixelFirst(ps, k + 1);
    }
  }

  /** The string `binary` when the first loop ends. */
  function Scanned(ps: seq<Rgb>): seq<Bit> {
    Lsbs(ps[..StopPixel(ps, 0)])
  }

  /** What `extract_message` returns for the decoded pixels. */
  function Extracted(ps: seq<Rgb>): (msg: string)
    ensures 8 * |msg| <= 3 * |ps| + 7
    ensures forall k :: 0 <= k < |msg| ==> msg[k] as int < 256
  {
    DecodeGroupsNarrow(BeforeMarker(Scanned(ps)));
    DecodeGroups(BeforeMarker(Scanned(ps)))
  }

  /** `extract_message` on the decoded pixels. */
  method ExtractMessage(pixels: seq<Rgb>) returns (msg: string)
    ensures msg == Extracted(pixels)
  {
    var binary: seq<Bit> := [];
    var i := 0;
    while i < |pixels|
      invariant 0 <= i <= |pixels|
      invariant binary == Lsbs(pixels[..i])
      invariant StopPixel(pixels, i) == StopPixel(pixels, 0)
    {
      var r, g, b := pixels[i].r, pixels[i].g, pixels[i].b;
      binary := binary + [r % 2];
      binary := binary + [g % 2];
      binary := binary + [b % 2];
      LsbsSnoc(pixels, i);
      assert binary == Lsbs(pixels[..i + 1]);
      i := i + 1;
      if Contains(binary, Marker) {
        assert MarkerSeen(pixels, i);
        break;
      }
    }
    assert binary == Scanned(pixels);

    binary := BeforeMarker(binary);
    msg := DecodeBits(binary);
  }

  /** The decoding loop of `extract_message`: one character per 8 bits,
      the last group possibly shorter. */
  method DecodeBits(binary: seq<Bit>) returns (msg: string)
    ensures msg == DecodeGroups(binary)
  {
    msg := "";
    var j := 0;
    while j < |binary|
      invariant 0 <= j < |binary| + 8
      invariant msg + DecodeGroups(binary[Min(j, |binary|)..]) == DecodeGroups(binary)
      decreases |binary| - j
    {
      var group := binary[j..Min(j + 8, |binary|)];
      var c := GroupChar(group);
      DecodeStep(binary, j, msg);
      msg := msg + [c];
      j := j + 8;
    }
    assert binary[Min(j, |binary|)..] == [];
  }

  /** One turn of the decoding loop keeps its invariant: the characters
      decoded so far, then the decoding of the bits not yet read, are the
      decoding of all bits. */
  lemma DecodeStep(bits: seq<Bit>, j: nat, msg: string)
    requires j < |bits|
    requires msg + DecodeGroups(bits[j..]) == DecodeGroups(bits)
    ensures (msg + [GroupChar(bits[j..Min(j + 8, |bits|)])]) + DecodeGroups(bits[Min(j + 8, |bits|)..])
      == DecodeGroups(bits)
  {
    var c := GroupChar(bits[j..Min(j + 8, |bits|)]);
    var rest := DecodeGroups(bits[Min(j + 8, |bits|)..]);
    DecodeFirstGroup(bits, j);
    AppendFirst(msg, DecodeGroups(bits[j..]), c, rest, DecodeGroups(bits));
  }

  /** Moving the first element of x onto the end of the prefix. */
  lemma AppendFirst<T>(prefix: seq<T>, x: seq<T>, c: T, rest: seq<T>, whole: seq<T>)
    requires x == [c] + rest && prefix + x == whole
    ensures (prefix + [c]) + rest == whole
  {
    assert (prefix + [c]) + rest == prefix + ([c] + rest);
  }

  /** Decoding from bit j on is the group at j followed by decoding from
      bit j + 8 on. */
  lemma DecodeFirstGroup(bits: seq<Bit>, j: nat)
    requires j < |bits|
    ensures DecodeGroups(bits[j..]) ==
      [GroupChar(bits[j..Min(j + 8, |bits|)])] + DecodeGroups(bits[Min(j + 8, |bits|)..])
  {
    var rest := bits[j..];
    if |rest| > 8 {
      assert rest[..8] == bits[j..j + 8];
      assert rest[8..] == bits[j + 8..];
    } else {
      assert rest == bits[j..Min(j + 8, |bits|)];
      assert bits[Min(j + 8, |bits|)..] == [];
    }
  }

  // ---------------------------------------------------------------------
  // What extraction promises
  // ---------------------------------------------------------------------

  /** An occurrence inside a prefix is an occurrence in the whole. */
  lemma OccursInPrefix(s: seq<Bit>, n: nat, q: nat)
    requires n <= |s| && OccursAt(s[..n], Marker, q)
    ensures OccursAt(s, Marker, q)
  {
    assert s[..n][q..q + 16] == s[q..q + 16];
  }

  /** The scan reads whole pixels, and it reads every pixel when the marker
      does not occur in the image's least-significant bits at all. */
  lemma ScannedShape(ps: seq<Rgb>)
    ensures |Scanned(ps)| % 3 == 0 && |Scanned(ps)| <= 3 * |ps|
    ensures Scanned(ps) == Lsbs(ps)[..|Scanned(ps)|]
    ensures !Contains(Lsbs(ps), Marker) ==> Scanned(ps) == Lsbs(ps)
  {
    var s := StopPixel(ps, 0);
    LsbsPrefix(ps, s);
    if !Contains(Lsbs(ps), Marker) && s < |ps| {
      StopPixelFirst(ps, 0);
      var q := Find(Lsbs(ps[..s]), Marker).value;
      OccursInPrefix(Lsbs(ps), 3 * s, q);
      assert false;
    }
    if s == |ps| {
      assert ps[..s] == ps;
    }
  }

  /** Without a marker there is no error: all 3N bits are decoded. */
  lemma ExtractWithoutMarker(ps: seq<Rgb>)
    requires !Contains(Lsbs(ps), Marker)
    ensures Extracted(ps) == DecodeGroups(Lsbs(ps))
    ensures |Extracted(ps)| == (3 * |ps| + 7) / 8
  {
    ScannedShape(ps);
  }

  // ---------------------------------------------------------------------
  // Bits of one character
  // ---------------------------------------------------------------------

  /** `int(format(n, 'b'), 2) == n`. */
  lemma {:induction false} BinaryValue(n: nat)
    ensures BitsValue(Binary(n)) == n
    decreases n
  {
    if n >= 2 {
      BinaryValue(n / 2);
      var b := Binary(n);
      assert b[..|b| - 1] == Binary(n / 2);
    }
  }

  /** Leading zeros do not change the value. */
  lemma {:induction false} LeadingZerosValue(k: nat, b: seq<Bit>)
    ensures BitsValue(Zeros(k) + b) == BitsValue(b)
    decreases |b|, k
  {
    if b == [] {
      assert Zeros(k) + b == Zeros(k);
      if k > 0 {
        assert Zeros(k)[..k - 1] == Zeros(k - 1);
        LeadingZerosValue(k - 1, []);
        assert Zeros(k - 1) + [] == Zeros(k - 1);
      }
    } else {
      var front := b[..|b| - 1];
      LeadingZerosValue(k, front);
      assert (Zeros(k) + b)[..|Zeros(k) + b| - 1] == Zeros(k) + front;
    }
  }

  /** `int(format(n, '0{width}b'), 2) == n`. */
  lemma FormatBitsValue(n: nat, width: nat)
    ensures BitsValue(FormatBits(n, width)) == n
  {
    var digits := Binary(n);
    BinaryValue(n);
    if |digits| < width {
      LeadingZerosValue(width - |digits|, digits);
    }
  }

  /** A character code below 256 is recovered from its 8 bits. */
  lemma CharBitsValue(c: char)
    requires c as int < 256
    ensures |CharBits(c)| == 8 && BitsValue(CharBits(c)) == c as int
  {
    FormatBitsValue(c as int, 8);
  }

  /** Decoding 8 bits followed by more bits is the character those 8 bits
      spell followed by the decoding of the rest. */
  lemma DecodeGroupsCons(a: seq<Bit>, rest: seq<Bit>)
    requires |a| == 8
    ensures DecodeGroups(a + rest) == [GroupChar(a)] + DecodeGroups(rest)
  {
    var bits := a + rest;
    if rest == [] {
      assert bits == a;
    } else {
      assert bits[..8] == a && bits[8..] == rest;
    }
  }

  /** A non-empty sequence is its first element followed by the rest. */
  lemma HeadTail<T>(s: seq<T>)
    requires s != []
    ensures [s[0]] + s[1..] == s
  {
  }

  /** Decoding the bits of a message of narrow characters gives it back. */
  lemma {:induction false} DecodeMessageBits(m: string)
    requires NarrowChars(m)
    ensures DecodeGroups(MessageBits(m)) == m
  {
    if m != [] {
      assert NarrowChars(m[1..]) by {
        forall i | 0 <= i < |m| - 1 ensures m[1..][i] as int < 256 {
          assert m[1..][i] == m[i + 1];
        }
      }
      DecodeMessageBits(m[1..]);
      CharBitsValue(m[0]);
      assert MessageBits(m) == CharBits(m[0]) + MessageBits(m[1..]);
      DecodeGroupsCons(CharBits(m[0]), MessageBits(m[1..]));
      var c := GroupChar(CharBits(m[0]));
      assert c == m[0];
      calc {
        DecodeGroups(MessageBits(m));
        [c] + DecodeGroups(MessageBits(m[1..]));
        [m[0]] + m[1..];
        { HeadTail(m); }
        m;
      }
    }
  }

  // ---------------------------------------------------------------------
  // Hiding then extracting
  // ---------------------------------------------------------------------

  /** The marker can only be found where it was appended exactly when the
      message bits do not contain it: no occurrence can straddle the end
      of the message, since the marker's last bit is its only 0. */
  lemma MarkerFirstAtEnd(w: seq<Bit>)
    ensures Find(w + Marker, Marker) == Some(|w|) <==> !Contains(w, Marker)
  {
    var s := w + Marker;
    assert OccursAt(s, Marker, |w|) by {
      assert s[|w|..|w| + 16] == Marker;
    }
    if !Contains(w, Marker) {
      forall q: nat | q < |w| ensures !OccursAt(s, Marker, q) {
        if q + 16 <= |w| {
          assert w[q..q + 16] == s[q..q + 16];
          assert !OccursAt(w, Marker, q);
        } else {
          NoStraddle(w, q);
        }
      }
    } else {
      var q := Find(w, Marker).value;
      assert s[q..q + 16] == w[q..q + 16];
      assert OccursAt(s, Marker, q);
    }
  }

  /** The window at q, overlapping the end of w, ends in a 1 taken from
      the marker's first 15 bits; the marker itself ends in 0. */
  lemma NoStraddle(w: seq<Bit>, q: nat)
    requires q < |w| < q + 16
    ensures !OccursAt(w + Marker, Marker, q)
  {
    var s := w + Marker;
    assert s[q + 15] == Marker[q + 15 - |w|] == 1;
    assert s[q..q + 16][15] == 1;
  }

  /** The least-significant bits after hiding: the stream where it was
      written, the original bits after it. */
  lemma LsbsOfEmbed(pixels: seq<Rgb>, bits: seq<Bit>)
    ensures forall t :: 0 <= t < 3 * |pixels| ==>
      Lsbs(Embed(pixels, bits))[t] == if t < |bits| then bits[t] else Lsbs(pixels)[t]
  {
    EmbedSamples(pixels, bits);
  }

  /** Two sequences that both agree with a third on a prefix agree on
      every window inside that prefix. */
  lemma SlicesAgree(a: seq<Bit>, all: seq<Bit>, b: seq<Bit>, p: nat, len: nat)
    requires |a| <= |all| && a == all[..|a|]
    requires |b| <= |all| && b == all[..|b|]
    requires p + len <= |a| && p + len <= |b|
    ensures a[p..p + len] == b[p..p + len]
  {
    assert a[p..p + len] == all[p..p + len];
    assert b[p..p + len] == all[p..p + len];
  }

  /** A buffer read from a bit sequence that begins with w + Marker, where
      the marker first occurs after w, is cut back to exactly w once it
      contains the marker. */
  lemma CutAtFirstMarker(buf: seq<Bit>, all: seq<Bit>, w: seq<Bit>)
    requires |buf| <= |all| && buf == all[..|buf|]
    requires |w| + 16 <= |all| && all[..|w| + 16] == w + Marker
    requires Find(w + Marker, Marker) == Some(|w|)
    requires Contains(buf, Marker)
    ensures BeforeMarker(buf) == w
  {
    var bits := w + Marker;
    var n := |w|;
    var p := Find(buf, Marker).value;
    if p < n {
      SlicesAgree(buf, all, bits, p, 16);
      assert OccursAt(bits, Marker, p);
      assert false;
    }
    SlicesAgree(buf, all, bits, n, 16);
    assert bits[n..n + 16] == Marker;
    assert OccursAt(buf, Marker, n);
    assert p == n;
    assert buf[..n] == bits[..n] == w;
  }

  /** After hiding, the first len least-significant bits are the first
      len bits of the stream. */
  lemma StreamPrefix(pixels: seq<Rgb>, bits: seq<Bit>, len: nat)
    requires len <= |bits| && len <= 3 * |pixels|
    ensures Lsbs(Embed(pixels, bits))[..len] == bits[..len]
  {
    LsbsOfEmbed(pixels, bits);
    var all := Lsbs(Embed(pixels, bits));
    forall t | 0 <= t < len ensures all[..len][t] == bits[..len][t] {
    }
  }

  /** When the marker occurs somewhere in the image's least-significant
      bits, the scan stops with the marker in its buffer. */
  lemma ScanSeesMarker(ps: seq<Rgb>, n: nat)
    requires OccursAt(Lsbs(ps), Marker, n)
    ensures Contains(Scanned(ps), Marker)
  {
    var s := StopPixel(ps, 0);
    StopPixelFirst(ps, 0);
    if s == |ps| {
      assert ps[..s] == ps;
    }
  }

  /** Pixels whose least-significant bits begin with w followed by the
      marker, where w itself does not contain the marker: the scan stops
      once the marker has been read and the split keeps exactly w. */
  lemma ScanThenCut(ps: seq<Rgb>, w: seq<Bit>)
    requires |w| + 16 <= 3 * |ps|
    requires Lsbs(ps)[..|w| + 16] == w + Marker
    requires !Contains(w, Marker)
    ensures BeforeMarker(Scanned(ps)) == w
  {
    var n := |w|;
    var all := Lsbs(ps);
    var buf := Scanned(ps);
    assert Contains(buf, Marker) by {
      assert all[n..n + 16] == all[..n + 16][n..n + 16];
      ScanSeesMarker(ps, n);
    }
    assert |buf| <= |all| && buf == all[..|buf|] by {
      ScannedShape(ps);
    }
    assert Find(w + Marker, Marker) == Some(n) by {
      MarkerFirstAtEnd(w);
    }
    CutAtFirstMarker(buf, all, w);
  }

  /** Extraction from pixels whose stream begins with w followed by the
      marker, where w itself does not contain the marker, decodes exactly
      w. */
  lemma ExtractCutsAtFirstMarker(pixels: seq<Rgb>, bits: seq<Bit>, w: seq<Bit>)
    requires |w| + 16 <= |bits| && |w| + 16 <= 3 * |pixels|
    requires bits[..|w| + 16] == w + Marker
    requires !Contains(w, Marker)
    ensures Extracted(Embed(pixels, bits)) == DecodeGroups(w)
  {
    var e := Embed(pixels, bits);
    StreamPrefix(pixels, bits, |w| + 16);
    ScanThenCut(e, w);
  }

  /** extract(hide(img, m)) == m when every character fits 8 bits, the
      whole stream fits in the R, G, B samples, and the marker first occurs
      where it was appended. */
  lemma HideExtractRoundTrip(pixels: seq<Rgb>, m: string)
    requires NarrowChars(m)
    requires 8 * |m| + 16 <= 3 * |pixels|
    requires Find(Bitstream(m), Marker) == Some(8 * |m|)
    ensures Extracted(Embed(pixels, Bitstream(m))) == m
  {
    MarkerFirstAtEnd(MessageBits(m));
    ExtractCutsAtFirstMarker(pixels, Bitstream(m), MessageBits(m));
    DecodeMessageBits(m);
  }

  /** The characters 0xFF, 0xFE spell the marker itself, so hiding them
      and extracting again yields the empty message: the round trip needs
      its third condition. */
  lemma MarkerInMessageTruncates(pixels: seq<Rgb>)
    requires 32 <= 3 * |pixels|
    ensures NarrowChars([255 as char, 254 as char])
    ensures Extracted(Embed(pixels, Bitstream([255 as char, 254 as char]))) == []
  {
    var m := [255 as char, 254 as char];
    assert Binary(255) == [1, 1, 1, 1, 1, 1, 1, 1];
    assert Binary(254) == [1, 1, 1, 1, 1, 1, 1, 0];
    assert MessageBits(m) == CharBits(m[0]) + MessageBits(m[1..]);
    assert MessageBits(m[1..]) == CharBits(m[1]) + MessageBits([]);
    assert MessageBits(m) == Marker;
    var bits := Bitstream(m);
    assert bits[..16] == [] + Marker;
    ExtractCutsAtFirstMarker(pixels, bits, []);
  }

  /** The digits of 2^k are a 1 followed by k zeros. */
  lemma {:induction false} BinaryPow2(k: nat)
    ensures Binary(Pow2(k)) == [1] + Zeros(k)
  {
    if k > 0 {
      BinaryPow2(k - 1);
      assert Zeros(k) == Zeros(k - 1) + [0];
    }
  }

  /** The digits of 256 are those of 128 followed by a 0, and 128 has 8. */
  lemma Binary256()
    ensures Binary(256) == Binary(128) + [0]
    ensures |Binary(128)| == 8 && BitsValue(Binary(128)) == 128
  {
    BinaryValue(128);
    assert Pow2(7) == 128;
    BinaryPow2(7);
  }

  /** The 9 bits of the character of code 256, 100000000, decode as two
      characters, of codes 128 and 0. */
  lemma WideCharDecodes()
    ensures |CharBits('Ā')| == 9 && !Contains(CharBits('Ā'), Marker)
    ensures DecodeGroups(CharBits('Ā')) == [128 as char, 0 as char]
  {
    Binary256();
    var high := Binary(128);
    assert CharBits('Ā') == high + [0] by {
      assert FormatBits(256, 8) == Binary(256);
    }
    DecodeGroupsCons(high, [0]);
    assert DecodeGroups([0]) == [GroupChar([0])];
  }

  /** A character of code 256 takes 9 bits, so hiding it and extracting
      again yields two characters, of codes 128 and 0: the round trip needs
      every code below 256. */
  lemma WideCharBits(pixels: seq<Rgb>)
    requires 25 <= 3 * |pixels|
    ensures |CharBits('Ā')| == 9
    ensures Extracted(Embed(pixels, Bitstream(['Ā']))) == [128 as char, 0 as char]
  {
    WideCharDecodes();
    var w := CharBits('Ā');
    var bits := Bitstream(['Ā']);
    assert bits[..|w| + 16] == w + Marker by {
      assert MessageBits(['Ā']) == w + MessageBits([]);
    }
    ExtractCutsAtFirstMarker(pixels, bits, w);
  }

  /** The round trip with its third condition stated on the message alone. */
  lemma HideExtractRoundTripNoMarker(pixels: seq<Rgb>, m: string)
    requires NarrowChars(m)
    requires 8 * |m| + 16 <= 3 * |pixels|
    requires !Contains(MessageBits(m), Marker)
    ensures Extracted(Embed(pixels, Bitstream(m))) == m
  {
    MarkerFirstAtEnd(MessageBits(m));
    HideExtractRoundTrip(pixels, m);
  }
}
