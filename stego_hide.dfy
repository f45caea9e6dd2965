/** secure_image_backend/stego_hide.py: turning a message into a bit
    string and writing it into the least-significant bits of R, G, B. */
module StegoHide {
  import opened Common

  // ---------------------------------------------------------------------
  // The bit string: each character code as 8 or more binary digits, most
  // significant first, then the end marker
  // ---------------------------------------------------------------------

  /** The binary digits of n, most significant first, without leading
      zeros ("0" for zero), as `format(n, 'b')` writes them. */
  function Binary(n: nat): (r: seq<Bit>)
    ensures |r| >= 1
    decreases n
  {
    if n < 2 then [n] else Binary(n / 2) + [n % 2]
  }

  /** A number below 2^w needs at most w binary digits. */
  lemma {:induction false} BinaryLength(n: nat, w: nat)
    requires 1 <= w && n < Pow2(w)
    ensures |Binary(n)| <= w
    decreases n
  {
    if n >= 2 {
      BinaryLength(n / 2, w - 1);
    }
  }

  function Zeros(k: nat): (r: seq<Bit>)
    ensures |r| == k && forall i :: 0 <= i < k ==> r[i] == 0
  {
    seq(k, _ => 0)
  }

  /** `format(n, '0{width}b')`: the binary digits of n, left-padded with
      zeros to width; a wider number keeps all its digits. */
  function FormatBits(n: nat, width: nat): (r: seq<Bit>)
    ensures |r| == if |Binary(n)| < width then width else |Binary(n)|
    ensures r[|r| - |Binary(n)|..] == Binary(n)
    ensures forall i :: 0 <= i < |r| - |Binary(n)| ==> r[i] == 0
  {
    var digits := Binary(n);
    if |digits| < width then Zeros(width - |digits|) + digits else digits
  }

  /** The bits contributed by one character: exactly 8 when its code is
      below 256, more otherwise. */
  function CharBits(c: char): (r: seq<Bit>)
    ensures |r| >= 8
    ensures c as int < 256 ==> |r| == 8
  {
    assert c as int < 256 ==> |Binary(c as int)| <= 8 by {
      if c as int < 256 {
        ByteBound(8);
        BinaryLength(c as int, 8);
      }
    }
    FormatBits(c as int, 8)
  }

  /** Every character of m has a code below 256, so that it fits 8 bits. */
  predicate NarrowChars(m: string) {
    forall i :: 0 <= i < |m| ==> m[i] as int < 256
  }

  /** The concatenated character encodings of a message. */
  function MessageBits(m: string): (r: seq<Bit>)
    ensures |r| >= 8 * |m|
    ensures NarrowChars(m) ==> |r| == 8 * |m|
  {
    if m == [] then []
    else
      assert NarrowChars(m) ==> m[0] as int < 256 && NarrowChars(m[1..]) by {
        if NarrowChars(m) {
          forall i | 0 <= i < |m| - 1 ensures m[1..][i] as int < 256 {
            assert m[1..][i] == m[i + 1];
          }
        }
      }
      CharBits(m[0]) + MessageBits(m[1..])
  }

  /** `binary_msg`: the message bits followed by the end marker. */
  function Bitstream(m: string): (r: seq<Bit>)
    ensures |r| == |MessageBits(m)| + 16
    ensures r[..|MessageBits(m)|] == MessageBits(m) && r[|MessageBits(m)|..] == Marker
    ensures NarrowChars(m) ==> |r| == 8 * |m| + 16
  {
    MessageBits(m) + Marker
  }

  // ---------------------------------------------------------------------
  // Writing the bits
  // ---------------------------------------------------------------------

  /** x with its least-significant bit cleared and then set to bit. */
  function SetLsb(x: byte, bit: Bit): (r: byte)
    ensures r % 2 == bit
    ensures r / 2 == x / 2
  {
    x - x % 2 + bit
  }

  /** Sample x at stream position pos: replaced when a bit is left for
      that position, untouched otherwise. */
  function Put(x: byte, bits: seq<Bit>, pos: nat): (r: byte)
    ensures r / 2 == x / 2
    ensures pos < |bits| ==> r % 2 == bits[pos]
    ensures pos >= |bits| ==> r == x
  {
    if pos < |bits| then SetLsb(x, bits[pos]) else x
  }

  /** One pixel of the output, whose R, G, B sit at stream positions pos,
      pos + 1 and pos + 2. */
  function EmbedPixel(p: Rgb, bits: seq<Bit>, pos: nat): (q: Rgb)
    ensures forall c :: 0 <= c < 3 ==> Channel(q, c) / 2 == Channel(p, c) / 2
    ensures forall c :: 0 <= c < 3 && pos + c < |bits| ==> Channel(q, c) % 2 == bits[pos + c]
    ensures forall c :: 0 <= c < 3 && pos + c >= |bits| ==> Channel(q, c) == Channel(p, c)
  {
    Rgb(Put(p.r, bits, pos), Put(p.g, bits, pos + 1), Put(p.b, bits, pos + 2))
  }

  /** The pixel list `hide_message_in_image` builds: pixel k takes stream
      positions 3k, 3k + 1 and 3k + 2. */
  function Embed(pixels: seq<Rgb>, bits: seq<Bit>): (r: seq<Rgb>)
    ensures |r| == |pixels|
  {
    seq(|pixels|, k requires 0 <= k < |pixels| => EmbedPixel(pixels[k], bits, 3 * k))
  }

  lemma DivMod3(k: nat, t: nat)
    requires 3 * k <= t < 3 * k + 3
    ensures t / 3 == k && t % 3 == t - 3 * k
  {
  }

  /** Bit t of the stream lands in sample t (channel t mod 3 of pixel
      t div 3); samples past the end of the stream keep their value; no
      sample changes anywhere but in its least-significant bit. */
  lemma EmbedSamples(pixels: seq<Rgb>, bits: seq<Bit>)
    ensures forall t :: 0 <= t < 3 * |pixels| ==>
      Sample(Embed(pixels, bits), t) ==
        if t < |bits| then SetLsb(Sample(pixels, t), bits[t]) else Sample(pixels, t)
    ensures forall t :: 0 <= t < 3 * |pixels| ==>
      Sample(Embed(pixels, bits), t) / 2 == Sample(pixels, t) / 2
    ensures forall k :: 0 <= k < |pixels| && 3 * k >= |bits| ==> Embed(pixels, bits)[k] == pixels[k]
  {
    var e := Embed(pixels, bits);
    forall t | 0 <= t < 3 * |pixels|
      ensures Sample(e, t) == if t < |bits| then SetLsb(Sample(pixels, t), bits[t]) else Sample(pixels, t)
    {
      var k := t / 3;
      DivMod3(k, t);
    }
  }

  /** Embedding one more pixel appends that pixel's output. */
  lemma EmbedSnoc(pixels: seq<Rgb>, bits: seq<Bit>, i: nat)
    requires i < |pixels|
    ensures Embed(pixels[..i + 1], bits) == Embed(pixels[..i], bits) + [EmbedPixel(pixels[i], bits, 3 * i)]
  {
  }

  /** `hide_message_in_image` on the decoded pixels: the bit string of the
      message, then the loop that writes it. bitsWritten is the final
      `msg_index`: the stream is cut short, with no error, when it is
      longer than 3 bits per pixel. */
  method HideMessage(pixels: seq<Rgb>, message: string) returns (newData: seq<Rgb>, bitsWritten: nat)
    ensures newData == Embed(pixels, Bitstream(message))
    ensures |newData| == |pixels|
    ensures bitsWritten == Min(|Bitstream(message)|, 3 * |pixels|)
    ensures forall t :: 0 <= t < 3 * |pixels| ==>
      Sample(newData, t) ==
        if t < |Bitstream(message)| then SetLsb(Sample(pixels, t), Bitstream(message)[t])
        else Sample(pixels, t)
  {
    var binaryMsg := Bitstream(message);
    newData, bitsWritten := WriteBits(pixels, binaryMsg);
  }

  /** The pixel loop of `hide_message_in_image`: walk the pixels, writing
      the next bit into R, then G, then B while bits remain, with the
      running index msgIndex. */
  method WriteBits(pixels: seq<Rgb>, binaryMsg: seq<Bit>) returns (newData: seq<Rgb>, msgIndex: nat)
    ensures newData == Embed(pixels, binaryMsg)
    ensures msgIndex == Min(|binaryMsg|, 3 * |pixels|)
    ensures forall t :: 0 <= t < 3 * |pixels| ==>
      Sample(newData, t) ==
        if t < |binaryMsg| then SetLsb(Sample(pixels, t), binaryMsg[t]) else Sample(pixels, t)
  {
    newData := [];
    msgIndex := 0;
    for i := 0 to |pixels|
      invariant msgIndex == Min(|binaryMsg|, 3 * i)
      invariant newData == Embed(pixels[..i], binaryMsg)
    {
      var r, g, b := pixels[i].r, pixels[i].g, pixels[i].b;
      if msgIndex < |binaryMsg| {
        r := SetLsb(r, binaryMsg[msgIndex]);
        msgIndex := msgIndex + 1;
      }
      assert r == Put(pixels[i].r, binaryMsg, 3 * i) && msgIndex == Min(|binaryMsg|, 3 * i + 1);
      if msgIndex < |binaryMsg| {
        g := SetLsb(g, binaryMsg[msgIndex]);
        msgIndex := msgIndex + 1;
      }
      assert g == Put(pixels[i].g, binaryMsg, 3 * i + 1) && msgIndex == Min(|binaryMsg|, 3 * i + 2);
      if msgIndex < |binaryMsg| {
        b := SetLsb(b, binaryMsg[msgIndex]);
        msgIndex := msgIndex + 1;
      }
      assert b == Put(pixels[i].b, binaryMsg, 3 * i + 2) && msgIndex == Min(|binaryMsg|, 3 * i + 3);
      EmbedSnoc(pixels, binaryMsg, i);
      newData := newData + [Rgb(r, g, b)];
    }
    assert pixels[..|pixels|] == pixels;
    EmbedSamples(pixels, binaryMsg);
  }
}
