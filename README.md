# pewpew-display-encoder, modelled in Dafny

pewpew-display-encoder turns a picture into a Lua statement that a PewPew
level can load. Its two modules implement the flow: `modules/transform.py`
makes the image bilevel and brings it to a size derived from a *size
factor* `f`, 14·f pixels wide and 1200 // f high, by cropping or
resizing; `modules/encode.py` writes its raw bytes out. The entry point
`main.py` does not wire them together: it calls its own conversion and a
resize to a fixed 140 × 120, saves the result, and calls neither
`transform.resize_image` nor `encode_image`. The encoder works as follows:

- each byte becomes eight '0'/'1' characters;
- the characters are cut into 14-character groups;
- each group, read as a big-endian number, becomes a triplet of symbols in
  base s, where s is the size of the alphabet (36 symbols by default);
- the output is `return"` + the triplet of `f` + the group triplets + `"`.

The model covers the two modules that hold this logic:

- `Encode` (`encode.dfy`) models `modules/encode.py`:
  - `encode_36` is the function `Encode36`. It keeps Python's floor
    division and Python's negative indexing.
  - The byte expansion keeps the source's right padding.
  - `encode_image` is the method `EncodeImage`. Its two loops are the
    methods `ExpandBytes` and `EncodeGroups`, each proved against a
    specification function (`Bits`, `Body`).
  - `Encoded` is the output as a function of the bytes. The lemmas about
    the output are stated on it.
- `Decode` (`decode.dfy`) is a reference decoder that exists only in the
  model. It reads triplets back by alphabet position and numbers back to
  '0'/'1' characters. It is the partner of the encoder's round-trip lemmas.
- `Transform` (`transform.dfy`) models `modules/transform.py`:
  - `get_size` is `GetSize`, with Python's `//` written out as `FloorDiv`.
  - `resize_image` is `ResizeImage`. Its result is either an image or an
    exit with a status.
  - The image library's operations are terms of the `Picture` datatype.
    `Dimensions` gives the size each of them asks the library for.
- `Arith` (`arith.dfy`) holds the integer lemmas the other modules share:
  powers of two, cubes, and Euclidean division.

Two behaviours of the code are modelled as written:

- A full group of 14 ON pixels has the value 16383. With the default
  alphabet it is written "cn3", not "zzz": "zzz" stands for 46655, the
  largest three-digit value.
- A crop to a box larger than the source is not rejected. The crop is
  requested anyway.

## Model

| member | source | states |
|---|---|---|
| Encode.DefaultAlphabet | modules/encode.py:8 | DEFAULT_ALPHABET has 36 symbols. |
| Encode.DefaultAlphabetSpelled | modules/encode.py:8 | The default alphabet is the ten digits followed by the 26 lower-case letters: 36 symbols, so s^3 = 46656. |
| Encode.AlphabetOf | modules/encode.py:17 | The alphabet is the "alphabet" setting when there is one, and otherwise the default alphabet, 36 symbols from '0' to 'z'. |
| Encode.PyIndex | modules/encode.py:21-23 | Python's alphabet[i] for -s <= i < s reads the symbol at i mod s, so a negative index counts from the end. |
| Encode.Encode36 | modules/encode.py:12-25 | For a non-empty alphabet and -s^3 <= num < s^3 (exactly the inputs on which Python raises nothing, by Encode.EncodableExact), the result has exactly three characters, each a symbol of the alphabet. |
| Encode.Encode36Wraps | modules/encode.py:21 | A negative number indexes the alphabet from the end, so it is written exactly as num + s^3 is. |
| Encode.EncodableExact | modules/encode.py:21 | For a non-empty alphabet, -s^3 <= num < s^3 holds if and only if the leading index num // s^2 lies in [-s, s), the indices Python's alphabet[...] accepts. |
| Decode.Encode36RoundTrip | modules/encode.py:21-23 | With an alphabet of distinct symbols, reading the three symbols back as base-s digits gives num, or num + s^3 for a negative num: the digits are most significant first and recompose the number. |
| Decode.IndexOf | modules/encode.py:21-23 | The position used to read a symbol back is its first occurrence in the alphabet, or the alphabet's length when the symbol is absent. |
| Decode.IndexOfDistinct | modules/encode.py:21-23 | In an alphabet without repeated symbols, the symbol at position d reads back as d. |
| Decode.DefaultDistinct | modules/encode.py:8 | DEFAULT_ALPHABET has no repeated symbol. |
| Decode.Decode36Bound | modules/encode.py:18-25 | Three symbols of the alphabet stand for a number below s^3, the range encode_36 accepts. |
| Encode.DefaultTriplet | modules/encode.py:17-25 | With the default alphabet, every 0 <= num < 46656 is encodable and is written as the symbols of its three base-36 digits. |
| Encode.DefaultExtremes | modules/encode.py:17-25 | With the default alphabet, 0 is written "000" and 46655 is written "zzz". |
| Encode.Binary | modules/encode.py:36 | bin(x)[2:] has at least one digit. |
| Encode.BitsValue | modules/encode.py:44 | int(b, base=2) of a string of length w is below 2^w. |
| Encode.BinaryValue | modules/encode.py:36 | bin(x)[2:] consists of '0'/'1' digits whose value is x, and it starts with '1' (no leading zero) whenever x >= 1. |
| Encode.BinaryOfByte | modules/encode.py:36 | The binary digits of a byte number at most eight. |
| Encode.BinaryDouble | modules/encode.py:36 | Doubling a positive number appends one '0' to its binary digits. |
| Encode.ShiftValue | modules/encode.py:36 | Appending k zeros on the right multiplies the value by 2^k. |
| Encode.ByteBits | modules/encode.py:36 | Each byte expands to exactly eight characters. |
| Encode.ByteBitsShape | modules/encode.py:36 | The expansion of a byte is eight '0'/'1' characters, "00000000" for x == 0, and starting with '1' otherwise. |
| Encode.ByteBitsValue | modules/encode.py:36 | The big-endian value of a byte's expansion is x << (8 - bitlen(x)). |
| Encode.ByteBitsDoubling | modules/encode.py:36 | The right padding loses information: x and 2x expand identically for 1 <= x < 128. |
| Encode.PowerOfTwoBytes | modules/encode.py:36 | The bytes 1, 2, 4, ..., 128 all expand to "10000000". |
| Encode.Bits | modules/encode.py:36-40 | The flattened character list has length 8 * len(bytes). |
| Encode.BitsAppend | modules/encode.py:38-40 | Flattening distributes over concatenation of byte strings. |
| Encode.BitsByteOrder | modules/encode.py:38-40 | Byte j occupies exactly the characters [8j, 8j + 8) of the flattened list, so byte order is kept. |
| Encode.BitsAreBits | modules/encode.py:36-40 | The flattened list consists of '0'/'1' characters only. |
| Encode.GroupCount | modules/encode.py:43 | len(individual_bytes) // 14 is the number of complete groups: 14n <= len < 14n + 14. |
| Encode.ExpandBytes | modules/encode.py:36-40 | The comprehension and the += loop build exactly the concatenation of the byte expansions in byte order. |
| Encode.GroupValue | modules/encode.py:44 | Every 14-character group reads as a number below 2^14 = 16384. |
| Encode.WideAlphabetFits | modules/encode.py:43-45 | With an alphabet of at least 26 symbols every group is encodable, since 26^3 = 17576 > 16383. |
| Encode.DefaultAlphabetFits | modules/encode.py:44 | With the default alphabet no group ever indexes out of range. |
| Encode.NarrowAlphabetFails | modules/encode.py:21 | With at most 25 symbols, the all-ON row of 14 pixels (bytes 255, 252) gives a group whose leading digit is out of range, so 26 is the least alphabet size that works for every image. |
| Encode.Repeat | modules/encode.py:36 | The padding ljust adds: n characters, every one of them the fill character. |
| Encode.LJust | modules/encode.py:36 | ljust keeps s as its prefix, pads with the fill character only beyond it, and gives max(|s|, width) characters. |
| Encode.OnesValue | modules/encode.py:36-44 | k ones read as 2^k - 1, and 2^k - 1 is written as k ones. |
| Encode.FullByteBits | modules/encode.py:36 | The byte 255 expands to eight '1'. |
| Encode.TailByteBits | modules/encode.py:36 | The byte 252 expands to six '1' followed by two '0'. |
| Encode.AllOnRow | modules/encode.py:36-44 | The bytes 255, 252 expand to fourteen '1' followed by two '0', and their one complete group is 16383. |
| Encode.Body | modules/encode.py:42-45 | n groups give 3n body characters. |
| Encode.BodyStep | modules/encode.py:44-45 | After i groups, the first 14 remaining characters are group i, and one more loop step appends the triplet of group i to the body. |
| Encode.EncodeGroups | modules/encode.py:42-45 | The packing loop appends to the header exactly one triplet per complete group, in group order, each the triplet of the group's value. The loop invariant ties the consumed prefix to the triplets emitted so far. |
| Encode.BodyTriplet | modules/encode.py:43-45 | Body triplet k is encode_36 of group k, the characters [14k, 14k + 14). |
| Encode.GroupsOfPrefix | modules/encode.py:43-44 | Two character lists that agree on their first 14n characters have the same first n group values. |
| Encode.BodyOfPrefix | modules/encode.py:43-45 | The body depends only on the first 14n characters. |
| Encode.EncodeImage | modules/encode.py:28-50 | encode_image returns the header triplet of the size factor, the body triplets, and the wrapping 'return"' ... '"'. |
| Encode.Frame | modules/encode.py:50 | The output wrapper adds 8 characters, 'return"' and the closing quote, around the header and the body. |
| Encode.Encoded | modules/encode.py:28-50 | The output of encode_image as a function of the size factor, the bytes and the settings; it needs an encodable size factor and encodable groups. Its properties are the lemmas EncodedShape, EncodedTriplet, EncodedDropsTail and EncodedRoundTrip. |
| Encode.FrameLayout | modules/encode.py:50 | The wrapped output is 11 + len(body) long, with the prefix at [0, 7), the header at [7, 10), the body at [10, 10 + len(body)) and the closing quote last. |
| Encode.FrameSlice | modules/encode.py:50 | Each piece of the body sits at its own offset shifted by 10 in the output. |
| Encode.EncodedShape | modules/encode.py:33-50 | The output has (8·len(bytes)) // 14 body triplets, the (8·len(bytes)) % 14 trailing characters are not encoded, the length is 11 + 3·((8·len(bytes)) // 14), it starts with 'return"' and the header triplet of the size factor, and it ends with '"'. |
| Encode.EncodedTriplet | modules/encode.py:42-45 | The output characters [10 + 3k, 13 + 3k) are encode_36 of group k: groups are consecutive, do not overlap and keep their order. |
| Encode.EncodedDropsTail | modules/encode.py:43 | Two byte strings of one length whose expansions agree on the complete groups encode identically, so the trailing characters are never encoded. |
| Encode.AllOnRowEncoded | modules/encode.py:28-50 | Size factor 10 and the all-ON row give exactly 'return"00acn3"' with the default alphabet. |
| Decode.ToBits | modules/encode.py:44 | The w-character binary form of a number has length w. |
| Decode.GroupBits | modules/encode.py:44 | A group value is written back as 14 characters. |
| Decode.BitsRoundTrip | modules/encode.py:44 | int(b, 2) loses nothing on a '0'/'1' string: writing its value back in len(b) characters gives b. |
| Decode.ValueRoundTrip | modules/encode.py:44 | Writing v < 2^w in w characters gives '0'/'1' characters whose value is v. |
| Decode.DecodeBody | modules/encode.py:42-45 | Decoding n triplets gives 14n characters. |
| Decode.DecodeBodyGroup | modules/encode.py:42-45 | Decoded group k comes from triplet k alone. |
| Decode.BodyOver | modules/encode.py:42-45 | The body uses only symbols of the alphabet. |
| Decode.BlocksEqual | modules/encode.py:43-45 | A string of n 14-character blocks that agrees block by block with the list is its first 14n characters. |
| Decode.GroupRoundTrip | modules/encode.py:44 | One group, encoded and decoded, gives back its 14 characters. |
| Decode.BodyGroupRoundTrip | modules/encode.py:42-45 | Group k of the decoded body is group k of the list of characters. |
| Decode.BodyRoundTrip | modules/encode.py:42-45 | Decoding the body gives back exactly the first 14n characters of the list. |
| Decode.DecodeOutput | modules/encode.py:50 | An output decodes exactly when it has 11 + 3n characters, and then yields the header value and 14n characters; any other length is Malformed. |
| Decode.FrameWellFormed | modules/encode.py:50 | Wrapping a three-symbol header and n triplets of symbols gives a well-formed output with n body triplets. |
| Decode.FrameDecodes | modules/encode.py:50 | Decoding a wrapped output decodes its header and its body. |
| Decode.EncodedRoundTrip | modules/encode.py:28-50 | With distinct symbols, the output is well formed and has one triplet per complete group. It decodes to the size factor (a negative one as f + s^3) and to the '0'/'1' list up to the last complete group. |
| Decode.DefaultRoundTrip | modules/encode.py:28-50 | With the default settings, every size factor in [0, 46656) and every byte string are recovered from the output: the size factor exactly, the expansion up to the last complete group. |
| Transform.FloorDiv | modules/transform.py:26 | Python's // rounds towards negative infinity, for either sign of the divisor. |
| Transform.GetSize | modules/transform.py:21-29 | The width is a multiple of 14, namely 14·f, and the height is 1200 // f. |
| Transform.GetSizeBounds | modules/transform.py:26 | For f >= 1 the height is the largest h with h·f <= 1200 and lies in [0, 1200], and width·height <= 16800. |
| Transform.ToBilevel | modules/transform.py:11-18 | The conversion to bilevel keeps the image's size and applies to the given image. |
| Transform.Dimensions | modules/transform.py:16-49 | Image.size after each operation: the conversion keeps the size, a crop has the size of its box, a resize the requested size. |
| Transform.ModeOf | modules/transform.py:40-44 | The mode is either "resize" or the value stored under the "mode" key. |
| Transform.ModeDefaults | modules/transform.py:40-44 | The mode is "resize" when there are no settings or no "mode" key, and the "mode" value otherwise. |
| Transform.ResizeImage | modules/transform.py:32-57 | An image comes back exactly for the modes "crop" and "resize", and any other mode exits with status 1. "crop" requests the top-left box of the computed size, and "resize" requests the computed size. Either result has the size get_size gives. |
| Transform.DefaultIsResize | modules/transform.py:40-49 | Without settings or without a "mode" key, the image is resized to get_size(f). |
| Transform.CropIgnoresSourceSize | modules/transform.py:46-47 | A source smaller than the computed size is still cropped, to the full computed box. |
| Transform.PreparedSize | main.py:103-104 | Composes transform.py's to_bilevel and resize_image in the order of main.py:103-104: a successful resize_image of the bilevel image has size get_size(f), whose width is a multiple of 14, and is made from the bilevel image. |

## Left out

- `main.py` is not part of this model, except the order of its two image
  steps (lines 103-104), which Transform.PreparedSize follows with
  transform.py's functions; main.py's own conversion and its fixed-size
  resize are not modelled. It handles logging setup,
  configuration loading, file input and output, and the interrupt handler.
  None of it computes anything that the encoder or the transformer returns.
- The image library is opaque:
  - the Floyd–Steinberg dithering of `convert("1")`;
  - the interpolation of `resize`;
  - how `crop` fills a box outside the source;
  - how `tobytes()` packs pixels into bytes.

  The bytes are an arbitrary input `seq<Byte>`. The operations are terms of
  `Picture`, and only the sizes they are asked for are modelled.
- Transform.ResizeImage: the library's rejection of an unusable target is
  not modelled. For f < 0 the crop box is inverted and the resize size is
  negative, and for f > 1200 the height is 0. The library raises
  `ValueError` for these, but the model returns an image term of the
  requested size. So Transform.ResizeImage, Transform.CropIgnoresSourceSize
  and Transform.PreparedSize promise an image on those inputs only because
  `Picture` never fails.
- Logging calls are left out. They do not affect any result.
- Exceptions the source raises are preconditions, not modelled error
  results:
  - `ZeroDivisionError` for an empty alphabet or for `f == 0`;
  - `IndexError` for a leading digit outside the alphabet.
- Settings values are strings. A non-string "alphabet" or "mode" value,
  which Python would index or compare differently, is not modelled.
- Decode.EncodedRoundTrip and Decode.BodyRoundTrip: these assume an alphabet
  without repeated symbols. The source does not check this. With a repeated
  symbol the output cannot be decoded uniquely, and the model only proves
  that the output is well formed (Encode.EncodedShape, Encode.EncodedTriplet).
- The decoder is not part of the repository. It exists only as the
  reference against which the encoder's output is proved reversible.
