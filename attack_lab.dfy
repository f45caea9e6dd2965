/** secure_image_backend/attack_lab.py: simulated tampering of a byte
    buffer. */
module AttackLab {
  import opened Common

  /** `tamper_data`: copy the bytes into a mutable buffer and, when there
      are more than 10 of them, replace byte 5 by (byte + 50) mod 255. */
  method TamperData(data: seq<byte>) returns (tampered: seq<byte>)
    ensures |tampered| == |data|
    ensures |data| <= 10 ==> tampered == data
    ensures |data| > 10 ==> tampered[5] == (data[5] as int + 50) % 255
    ensures |data| > 10 ==> tampered[5] != data[5] && tampered[5] <= 254
    ensures forall k :: 0 <= k < |data| && k != 5 ==> tampered[k] == data[k]
  {
    var buffer := new byte[|data|](k requires 0 <= k < |data| => data[k]);
    if buffer.Length > 10 {
      buffer[5] := (buffer[5] as int + 50) % 255;
    }
    tampered := buffer[..];
  }
}
