# encrypty image-security core, modelled in Dafny

This project models the parts of the `secure_image_backend` package of
encrypty that contain hand-written logic. It also proves what that logic
promises.

- **Row-permutation cipher** (`encrypt_image_shuffle`, `decrypt_image_shuffle`).
  The rows of the decoded image array are gathered through a list of row
  indices that numpy's seeded shuffle produces. Decryption rebuilds the same
  list, scatters it into its inverse (`unshuffle_map[indices] = arange`) and
  gathers through that inverse.
- **LSB steganography channel** (`hide_message_in_image`, `extract_message`).
  The message becomes a bit string: 8 bits per character, most significant
  bit first, then the end marker `1111111111111110`. These bits are written
  into the least-significant bits of R, G and B, pixel by pixel. Extraction
  reads the least-significant bits back. It stops after the first pixel at
  which the marker has been read, keeps what precedes the first marker, and
  decodes it 8 bits at a time.
- **Byte helpers**: `pad` (space padding to a multiple of 16), the AES-CBC
  framing of `encrypt_image_aes` / `decrypt_image_aes` with the cipher as
  a parameter, and `tamper_data`.

Files:

- `common.dfy`: bytes, bits, RGB pixels, row grids, permutations, swap and
  gather.
- `encryption.dfy`: `pad`, the AES output framing, numpy's shuffle and the
  row shuffle.
- `decryption.dfy`: the AES input framing, the inverse map and the row
  unshuffle.
- `stego_hide.dfy`: the bit string and the least-significant-bit writing
  loop.
- `stego_extract.dfy`: the scan, the split at the first marker, the
  decoding loop and the hide/extract round trip.
- `attack_lab.dfy`: `tamper_data`.

Boundary decisions:

- The model starts at the decoded pixels. The row cipher works on
  `np.array(image)`, a sequence of rows of pixels of channel samples. The
  stego code works on `list(img.convert("RGB").getdata())`, a flat sequence
  of `(r, g, b)` byte triples.
- numpy's legacy `shuffle` is modelled as the loop it runs. Going from the
  last position down to position 1, position `i` is exchanged with a drawn
  position `j` in `[0, i]`. The Mersenne Twister draw is a function parameter
  `rng(key, n, i)`, reduced modulo `i + 1`. That reduction changes nothing
  on numpy's own draws, which already lie in that range. So the permutation
  property of `Perm` is proved, not assumed.
- A key is `0 <= key < 2^32`, the range `np.random.seed` accepts.
- The AES-CBC cipher, PBKDF2 and the random IV are parameters.

The model follows the code as written:

- Embedding has no capacity check. A stream longer than `3·N` bits is cut
  short silently.
- Extraction has no "no message found" outcome. Without a marker, all
  `3·N` bits are decoded.
- A trailing group of fewer than 8 bits is decoded as a smaller number. It
  is not dropped.
- The marker test runs after every pixel (3 bits), not after every bit.
- Neither component rejects an empty image.
- `decrypt_image_aes` does not remove the padding. Decrypting what
  `encrypt_image_aes` produced gives back the padded bytes.

## Model

| member | source | states |
|---|---|---|
| Common.Iota | secure_image_backend/encryption.py:31 | np.arange(n) holds 0, 1, ..., n-1 in order, one per position |
| Common.Swap | secure_image_backend/encryption.py:35 | one shuffle step exchanges entries i and j and leaves every other entry and the length as they were |
| Common.Gather | secure_image_backend/encryption.py:38 | arr[indices] on the first axis has one row per index, and row k is input row indices[k] |
| Encryption.Padded | secure_image_backend/encryption.py:10-13 | the padded value is the input followed by fewer than 16 bytes, all 0x20; its length is a multiple of 16; an aligned input is returned unchanged |
| Encryption.Pad | secure_image_backend/encryption.py:10-13 | the space-appending loop ends with exactly the padded value |
| Encryption.PadIdempotent | secure_image_backend/encryption.py:11 | padding a padded buffer changes nothing |
| Encryption.EncryptAes | secure_image_backend/encryption.py:16-23 | the output is the 16-byte IV in its first 16 bytes, followed by the cipher's output on the padded image bytes |
| Encryption.Draw | secure_image_backend/encryption.py:35 | the shuffle's partner index for position i lies in [0, i] |
| Encryption.Shuffled | secure_image_backend/encryption.py:35 | numpy's swap-down shuffle keeps the length and the multiset of the index list |
| Encryption.Perm | secure_image_backend/encryption.py:31-35 | the shuffled index list for (key, h) is a permutation of [0, h): in range, pairwise distinct, and depending only on key and h |
| Encryption.Shuffle | secure_image_backend/encryption.py:38 | the shuffled grid has the input's height, and its row i is input row Perm[i] |
| Encryption.ShuffleInPlace | secure_image_backend/encryption.py:35 | the in-place swap loop on the index array leaves it equal to the shuffled list |
| Encryption.EncryptShuffle | secure_image_backend/encryption.py:26-38 | the output has as many rows as the input, row i is input row Perm[i], and the multiset of rows is preserved; the result is a function of grid, key and generator only |
| Encryption.GatherShuffled | secure_image_backend/encryption.py:35-38 | gathering rows by a shuffled index list yields the same multiset of rows as gathering before the shuffle |
| Encryption.ShuffleRearranges | secure_image_backend/encryption.py:31-38 | the shuffled grid is a rearrangement of the input rows: same height, same multiset, every row an unmodified input row |
| Encryption.ShuffleShortIsIdentity | secure_image_backend/encryption.py:31-38 | a grid of height 0 or 1 is returned unchanged |
| Decryption.DecryptAes | secure_image_backend/decryption.py:8-15 | decryption succeeds exactly when there are 16 IV bytes and a block-aligned body; then it is the cipher applied to the body under the first 16 bytes; a short input is an IV-length error |
| Decryption.AesRoundTrip | secure_image_backend/decryption.py:8-15 | when the cipher inverts itself, decrypting what encryption produced gives back the padded image bytes, with the spaces not stripped |
| Decryption.IndexOf | secure_image_backend/decryption.py:29-30 | the first position where a value occurs, or the length when it does not occur |
| Decryption.Inverse | secure_image_backend/decryption.py:29-30 | entry j is a position of the index list that holds j, for every j that occurs in it; an entry for a value that does not occur is the list length |
| Decryption.InverseIsInverse | secure_image_backend/decryption.py:29-30 | the inverse of a permutation of [0, n) undoes it on both sides and is itself a permutation of [0, n) |
| Decryption.InverseMap | secure_image_backend/decryption.py:29-30 | after the scatter loop, unshuffle_map[indices[i]] == i and indices[unshuffle_map[j]] == j for all i, j, so the map is the inverse permutation |
| Decryption.Unshuffle | secure_image_backend/decryption.py:33 | the restored grid has the input's height, and its row Perm[i] is input row i |
| Decryption.DecryptShuffle | secure_image_backend/decryption.py:18-33 | same height as the input, output row Perm[i] is input row i, and the multiset of rows is preserved |
| Decryption.UnshuffleShuffle | secure_image_backend/decryption.py:23-33 | unshuffling a shuffled grid under the same key gives the grid back, for every grid and key |
| Decryption.ShuffleUnshuffle | secure_image_backend/decryption.py:23-33 | shuffling an unshuffled grid under the same key gives the grid back |
| Decryption.UnshuffleRearranges | secure_image_backend/decryption.py:23-33 | under any key, including a wrong one, the result is a well-formed rearrangement of the rows, with no error |
| StegoHide.Binary | secure_image_backend/stego_hide.py:9 | the digit string of format(n, 'b') is never empty |
| StegoHide.BinaryLength | secure_image_backend/stego_hide.py:9 | a number below 2^w has at most w binary digits |
| StegoHide.FormatBits | secure_image_backend/stego_hide.py:9 | format(n, '0{w}b') is the binary digits left-padded with zeros to width w; a wider number keeps all its digits |
| StegoHide.CharBits | secure_image_backend/stego_hide.py:9 | a character yields at least 8 bits, and exactly 8 when its code is below 256 |
| StegoHide.MessageBits | secure_image_backend/stego_hide.py:9 | the message bits have length 8·len(m) when every code is below 256, and at least that otherwise |
| StegoHide.Bitstream | secure_image_backend/stego_hide.py:9 | the stream is the message bits followed by the 16-bit marker, of length 8·len(m) + 16 for narrow characters |
| StegoHide.SetLsb | secure_image_backend/stego_hide.py:20 | replacing bit 0 of x by the message bit gives a byte whose lowest bit is that bit and which agrees with x on every other bit |
| StegoHide.Put | secure_image_backend/stego_hide.py:19-29 | a sample keeps every bit above bit 0; bit 0 becomes the stream bit at its position while bits remain; past the stream the sample is unchanged |
| StegoHide.EmbedPixel | secure_image_backend/stego_hide.py:19-31 | each of R, G, B keeps its upper 7 bits; channel c takes stream bit pos + c while bits remain, and is unchanged past the stream |
| StegoHide.Embed | secure_image_backend/stego_hide.py:16-31 | the output has as many pixels as the input |
| StegoHide.EmbedSamples | secure_image_backend/stego_hide.py:19-31 | stream bit t goes into channel t mod 3 of pixel t div 3; later samples keep their value; no sample changes anywhere but in bit 0; pixels past the stream are unchanged |
| StegoHide.HideMessage | secure_image_backend/stego_hide.py:5-31 | hiding yields the message's stream embedded in the pixels, of the same count; the final msg_index is min(len(bits), 3·N), so a long stream is cut short with no error |
| StegoHide.WriteBits | secure_image_backend/stego_hide.py:14-31 | the R, G, B writing loop embeds bit t in sample t while bits remain and leaves every later sample as it was; msg_index ends at min(len(bits), 3·N) |
| StegoExtract.FindFrom | secure_image_backend/stego_extract.py:18 | the result is the first occurrence of the pattern at or after k, or none when there is none |
| StegoExtract.ContainsIff | secure_image_backend/stego_extract.py:18-21 | the `in` test holds exactly when the search for the first occurrence, which the split uses, succeeds |
| StegoExtract.Contains | secure_image_backend/stego_extract.py:18 | the `in` test holds only when the pattern is no longer than the string, and always for the empty pattern |
| StegoExtract.BeforeMarker | secure_image_backend/stego_extract.py:21 | split(marker)[0] is the prefix before the first marker and holds no marker; it is everything when no marker occurs |
| StegoExtract.BitsValue | secure_image_backend/stego_extract.py:26 | int(bits, 2) is below 2^len(bits) |
| StegoExtract.GroupChar | secure_image_backend/stego_extract.py:25-26 | chr(int(group, 2)) for a group of at most 8 bits is the character whose code is the group's value, below 256 |
| StegoExtract.DecodeGroups | secure_image_backend/stego_extract.py:23-26 | L retained bits decode to ceil(L/8) characters: a final short group is decoded, not dropped |
| StegoExtract.DecodeGroupsNarrow | secure_image_backend/stego_extract.py:24-26 | every decoded character has a code below 256, since no group is wider than 8 bits |
| StegoExtract.DecodeGroupsAt | secure_image_backend/stego_extract.py:23-26 | character k of the decoding is the value of bits 8k up to 8k + 8, MSB first, with fewer bits in the last group |
| StegoExtract.Lsbs | secure_image_backend/stego_extract.py:12-16 | 3 bits per pixel: the lowest bits of R, G and B of pixel k sit at positions 3k, 3k + 1 and 3k + 2 |
| StegoExtract.StopPixel | secure_image_backend/stego_extract.py:18-19 | the scan, started at pixel k, stops at a pixel count between k and the image size |
| StegoExtract.StopPixelFirst | secure_image_backend/stego_extract.py:12-19 | the scan stops at the end of the image or at a pixel after which the marker has been read; no earlier pixel boundary has the marker in the bits read |
| StegoExtract.Extracted | secure_image_backend/stego_extract.py:5-28 | from an N-pixel image, 8·len(msg) ≤ 3N + 7, so at most ceil(3N/8) characters come out, and every code is below 256 |
| StegoExtract.ExtractMessage | secure_image_backend/stego_extract.py:5-28 | the scan-then-split-then-decode loops compute the extracted message |
| StegoExtract.DecodeBits | secure_image_backend/stego_extract.py:23-26 | the 8-bit stepping loop produces the group decoding of the retained bits |
| StegoExtract.DecodeStep | secure_image_backend/stego_extract.py:24-26 | one turn of the decoding loop keeps its invariant: decoded characters followed by the decoding of the unread bits equal the decoding of all bits |
| StegoExtract.DecodeGroupsCons | secure_image_backend/stego_extract.py:23-26 | 8 bits followed by more bits decode to the character those 8 bits spell followed by the decoding of the rest |
| StegoExtract.DecodeFirstGroup | secure_image_backend/stego_extract.py:24-26 | decoding from bit j is the character of the group at j followed by decoding from bit j + 8 |
| StegoExtract.ScannedShape | secure_image_backend/stego_extract.py:12-19 | the scanned buffer is a prefix of all least-significant bits whose length is a multiple of 3; it is all 3·N bits when no marker occurs |
| StegoExtract.ExtractWithoutMarker | secure_image_backend/stego_extract.py:12-26 | without a marker, all bits are decoded into ceil(3N/8) characters, with no error |
| StegoExtract.BinaryValue | secure_image_backend/stego_extract.py:26 | int(format(n, 'b'), 2) == n |
| StegoExtract.LeadingZerosValue | secure_image_backend/stego_extract.py:26 | leading zeros do not change int(bits, 2) |
| StegoExtract.CharBitsValue | secure_image_backend/stego_extract.py:26 | chr(int(format(ord(c), '08b'), 2)) == c for codes below 256 |
| StegoExtract.DecodeMessageBits | secure_image_backend/stego_extract.py:23-26 | decoding the bits of a message of narrow characters gives the message back |
| StegoExtract.WideCharDecodes | secure_image_backend/stego_extract.py:23-26 | the 9 bits of the character of code 256 hold no marker and decode as the two characters of codes 128 and 0 |
| StegoExtract.WideCharBits | secure_image_backend/stego_extract.py:5-28 | a character of code 256 yields 9 bits, and hiding it in an image of at least 25 samples then extracting gives the two characters of codes 128 and 0, not the character |
| StegoExtract.MarkerFirstAtEnd | secure_image_backend/stego_extract.py:21 | the first marker in bits + marker sits at the end of bits exactly when bits does not contain the marker |
| StegoExtract.NoStraddle | secure_image_backend/stego_extract.py:18-21 | no occurrence of the marker starts inside the message bits and ends inside the appended marker |
| StegoExtract.LsbsOfEmbed | secure_image_backend/stego_extract.py:12-16 | the least-significant bits after hiding are the stream where it was written and the original bits after it |
| StegoExtract.StreamPrefix | secure_image_backend/stego_extract.py:12-16 | after hiding, the first len least-significant bits read back are the first len stream bits |
| StegoExtract.ScanSeesMarker | secure_image_backend/stego_extract.py:12-19 | when the marker occurs anywhere in the least-significant bits, the scan stops with it in its buffer |
| StegoExtract.CutAtFirstMarker | secure_image_backend/stego_extract.py:18-21 | a buffer read from bits that begin with w + marker, where the marker first occurs after w, is cut back to exactly w |
| StegoExtract.ScanThenCut | secure_image_backend/stego_extract.py:12-21 | when the least-significant bits begin with w followed by the marker and w holds no marker, the scan and the split keep exactly w |
| StegoExtract.ExtractCutsAtFirstMarker | secure_image_backend/stego_extract.py:12-26 | extraction from pixels whose stream begins with w + marker, where w does not contain the marker, decodes exactly w |
| StegoExtract.HideExtractRoundTrip | secure_image_backend/stego_extract.py:12-26 | extract(hide(img, m)) == m when codes are below 256, 8·len(m) + 16 ≤ 3·N, and the marker first occurs at 8·len(m) |
| StegoExtract.MarkerInMessageTruncates | secure_image_backend/stego_extract.py:18-21 | the message "\xff\xfe" spells the marker, so hiding it and extracting gives the empty string |
| StegoExtract.HideExtractRoundTripNoMarker | secure_image_backend/stego_extract.py:12-26 | the round trip holds when the message bits do not contain the marker, with the other two conditions unchanged |
| AttackLab.TamperData | secure_image_backend/attack_lab.py:5-9 | same length; inputs of length ≤ 10 are unchanged; otherwise only byte 5 changes, it becomes (b + 50) mod 255, it differs from the original, and it is at most 254 |

## Left out

- AES-CBC, PBKDF2 and the random IV are parameters (`Cipher`, the `iv` argument). The block cipher itself is not modelled.
- numpy's Mersenne Twister is the parameter `rng`.
- Key sensitivity (that some two keys give different shuffles for height ≥ 2) cannot be stated on an arbitrary generator and is not modelled.
- Image decoding and encoding (`Image.open`, `np.array`, `convert("RGB")`, `getdata`, `putdata`, `Image.fromarray`, PNG save) sit at the boundary. The model starts and ends at the decoded pixels.
- `compare_hash` in secure_image_backend/attack_lab.py:12-13 only calls SHA-256, which is not part of this model.
- The HTTP layer (secure_image_backend/main.py), the frontend, AES-GCM framing, RSA signatures, watermark compositing and timing metrics are not part of this model.
- Python's byte immutability and numpy's array aliasing are not modelled. Every operation returns a new sequence.
