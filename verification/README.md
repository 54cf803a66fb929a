# soprintln beacons, modelled in Dafny

`soprintln` tags every diagnostic line with two coloured *beacons*: one for
the shared object that printed it (the address of a per-object static) and
one for the thread. A beacon is a label plus a 64-bit value. Its colours come
from a hash of the value, so equal values always look alike. The hash is
meant to push nearby values apart, but nothing here proves that. This
project models the integer and string logic of that crate in Dafny and
proves its properties:

- `Mix` (mix.dfy): the value hash of `Beacon::new`. It uses three wrapping
  multiplications by the odd constant `0x517cc1b727220a95`, with
  `x ^= x >> 32` between them. The hash is proved to be a bijection on
  `u64`: an explicit inverse `Unhash` is given, built from the inverse of
  the constant modulo 2^64 and from the fact that the fold is its own
  inverse. It maps 0 to 0.
- `Sector` (sector.dfy): the hue-sector `match` of `hsl_to_rgb`. The chroma,
  the intermediate value and zero are opaque values of any type. The table
  always gives a permutation of the three values. It agrees with the usual
  description of the hue wheel: the dominant channel of each sixth gets the
  chroma, the opposite channel gets zero, and the remaining channel gets the
  intermediate value. Index 6 wraps back to index 0.
- `Beacons` (beacon.dfy): the `Beacon` record and its constructors
  `new`, `from_ptr` and `from_ref`, plus its `Display` text. The text is
  `ESC[48;2;r;g;bm ESC[38;2;r;g;bm name # hex ESC[0m` with no spaces. It is
  proved lossless: `Unrender` reads colours, label and value back from any
  rendered text.
- `Numerals` (numerals.dfy): Rust's `{}` and `{:x}` on unsigned integers,
  which give the shortest numeral with lower-case digits, and
  `str::parse::<u64>`.
- `LinePrefix` (prefix.dfy): the line the `soprintln!` macro prints. It
  extracts the numeric thread id from the `Debug` text of a `ThreadId`,
  writes the millisecond timestamp wrapped at 99999 with `{:05}`, and
  assembles the line.
- `Words` (words.dfy) models `u8` and `u64` as bounded integers, with
  bitwise xor defined one binary digit at a time. `Wrappers`
  (wrappers.dfy) holds `Option`.

Facts about the code that shape the model:

- The separator between label and value is `#`.
- The value is written with `{:0x}`. That format has no width, so the hex
  is not padded.
- There is no option to hide the value.
- The colour constants are lightness 70 and saturation 50 for the
  foreground. The background uses 0.8 times that saturation and half that
  lightness.

The round trip of `Render` is proved with a reader, `Beacons.Unrender`, that
exists only for the proof. It relies on two helpers: `Beacons.SplitLast`
splits at the last `#`, and `Numerals.SpanDigits` takes the leading run of
decimal digits. Nothing in the crate reads beacons back.

Inputs that the code reads from the machine are parameters of the model:

- the clock reading in milliseconds;
- the address of the shared-object static;
- the current thread's name and the `Debug` text of its id;
- the user's formatted message;
- the floating-point colour derivation. This is `paint`, a function from
  the hash to the two colours.

## Model

| member | source | states |
|---|---|---|
| Mix.WrappingMul | src/lib.rs:102 | `wrapping_mul` is the exact product when that fits in 64 bits, and otherwise differs from it by a multiple of 2^64 |
| Mix.Hash | src/lib.rs:100-108 | the hash of a value loses nothing: `Unhash` recovers the value from it |
| Mix.HashOfZero | src/lib.rs:100-108 | the hash of 0 is 0 |
| Mix.MulByKCancels | src/lib.rs:101-102 | wrapping multiplication by the odd constant is undone by multiplication by its inverse modulo 2^64, in either order |
| Mix.FoldHigh | src/lib.rs:103 | `x ^ (x >> 32)` stays a `u64` and leaves the high 32 bits unchanged |
| Mix.FoldHighTwice | src/lib.rs:103-105 | folding the high half into the low half twice restores the word |
| Mix.UnhashHash | src/lib.rs:100-108 | `Unhash` recovers every value from its hash |
| Mix.HashUnhash | src/lib.rs:100-108 | every `u64` is the hash of some value, so the hash is onto |
| Mix.HashInjective | src/lib.rs:100-108 | two values have the same hash exactly when they are equal |
| Sector.SectorTable | src/lib.rs:124-131 | every sector index sends `(c, x, 0)` to the three channels as a permutation |
| Sector.SectorTableIsHueWheel | src/lib.rs:124-131 | for each sixth of the hue wheel, the dominant channel gets `c`, the opposite channel gets 0 and the third gets `x`; index 6 counts as sixth 0 and every other index from 5 up counts as sixth 5 |
| Sector.SectorWrapAround | src/lib.rs:125-130 | index 6 gives the same triple as index 0; every other index from 5 up takes the default arm `(c, 0, x)` |
| Beacons.New | src/lib.rs:99-148 | the beacon keeps the name and value unchanged, and its two colours are those derived from the hash of the value |
| Beacons.FromPtr | src/lib.rs:89-91 | the beacon keeps the name, takes the address as its value, and is coloured from the hash of the address |
| Beacons.FromRef | src/lib.rs:94-96 | the beacon keeps the name, takes the referent's address as its value, and is coloured from the hash of that address |
| Beacons.ColoursIgnoreName | src/lib.rs:110-141 | the same value with different names gives the same foreground and background |
| Beacons.Render | src/lib.rs:152-159 | the text opens with the 24-bit background escape and closes with the reset `ESC[0m` |
| Beacons.RenderFrame | src/lib.rs:154-158 | the text opens with the 24-bit background escape `ESC[48;2;`, the foreground escape `ESC[38;2;` follows it directly, and the text closes with the name, `#`, the hex value and the reset `ESC[0m` |
| Beacons.RenderLength | src/lib.rs:154-158 | the text is the name plus 32 to 59 characters, because each channel is 1 to 3 decimal digits and the hex value is 1 to 16 digits |
| Beacons.UnrenderRender | src/lib.rs:152-159 | reading the rendered text back gives the same colours, name and value |
| Beacons.RenderInjective | src/lib.rs:152-159 | two beacons render to the same text exactly when they are equal |
| Numerals.Format | src/lib.rs:156 | a numeral is at least one digit of the base, with no leading zero except for the single digit of zero |
| Numerals.ValueOfFormat | src/lib.rs:156 | reading a numeral gives back the number it was written from |
| Numerals.FormatWidth | src/lib.rs:156 | a numeral fits in k digits exactly when the number is below base^k |
| Numerals.Dec | src/lib.rs:156-157 | `{}` gives decimal digits that read back as the number, with a leading `0` only for zero |
| Numerals.Hex | src/lib.rs:156-157 | `{:0x}` gives hex digits that read back as the number, with a leading `0` only for zero |
| Numerals.DecOfByte | src/lib.rs:156-157 | a colour channel prints as 1 to 3 decimal digits |
| Numerals.HexOfWord | src/lib.rs:156-157 | the `{:0x}` value has 1 to 16 lower-case hex digits, is `"0"` exactly for 0, and reads back as the value |
| Numerals.ParseU64 | src/lib.rs:50 | parsing fails on the empty string; a success means the first character is `+` or a digit and every later one is a digit |
| Numerals.ParseU64OfDec | src/lib.rs:50 | a decimal numeral parses to its number when that fits in 64 bits, and fails on overflow |
| Numerals.ParseU64OfPadded | src/lib.rs:50 | zeros in front of a numeral are accepted: the text reads as the number when it fits in 64 bits, and fails on overflow |
| Numerals.ParseU64OfSigned | src/lib.rs:50 | a leading `+` in front of any text that does not itself start with `+` is accepted and changes nothing, so `"+007"` reads as `"007"` |
| Numerals.ParseU64Refuses | src/lib.rs:50 | a lone `+`, a `-`, or any other non-digit makes the parse fail |
| LinePrefix.StripPrefix | src/lib.rs:46 | strips a prefix exactly when it is present, and the prefix plus the rest is the input |
| LinePrefix.StripSuffix | src/lib.rs:48 | strips a suffix exactly when it is present, and the rest plus the suffix is the input |
| LinePrefix.ThreadIdOf | src/lib.rs:44-50 | a non-zero id is the parse of the `Debug` text with at most the `ThreadId(` prefix and the `)` suffix removed |
| LinePrefix.ThreadIdOfWrapped | src/lib.rs:44-50 | inside `ThreadId(`…`)` the id text is parsed exactly as it is, whatever it holds |
| LinePrefix.ThreadIdOfDebug | src/lib.rs:44-50 | `ThreadId(n)` gives `n` when it fits in a `u64`, and 0 otherwise |
| LinePrefix.ThreadIdOfBare | src/lib.rs:46-50 | a bare numeral is read as it is, because neither strip applies |
| LinePrefix.ThreadIdOfOpenOnly | src/lib.rs:46-50 | a numeral with only the `ThreadId(` prefix is read correctly |
| LinePrefix.ThreadIdOfCloseOnly | src/lib.rs:46-50 | a numeral with only the `)` suffix is read correctly |
| LinePrefix.ThreadIdOfMalformed | src/lib.rs:44-50 | inside the wrapper, an empty id, a character that is not a digit and a number too large for 64 bits all give 0 |
| LinePrefix.ZeroPad | src/lib.rs:59 | `{:05}` ends with the numeral and fills the width in front of it with zeros only |
| LinePrefix.Stamp | src/lib.rs:55-59 | the timestamp field is exactly five decimal digits whose value is the milliseconds modulo 99999 |
| LinePrefix.ModeLetter | src/lib.rs:11-21 | each linkage mode is tagged by one letter |
| LinePrefix.Line | src/lib.rs:41-59 | a printed line is the five-digit timestamp, a space, the shared-object beacon rendered from the mode letter and address, a space, the thread beacon rendered from the name (or `<unnamed>`) and the parsed id, a space, then the message and a newline |

## Left out

- The `#[used]` static and `shared_object_id` (src/lib.rs:1-9) depend on how the loader lays out memory. The shared-object address is an opaque `u64` parameter of `Line`.
- `RUBICON_MODE` (src/lib.rs:11-21) is cargo build configuration. It is the `Mode` datatype with its letter `I`, `E` or `N`.
- The `Once`/`AtomicBool` gate and the read of the `SO_PRINTLN` variable (src/lib.rs:30-38) are concurrency and environment I/O.
- `SystemTime::now`, `std::thread::current`, `format!` of the message and `eprintln!` (src/lib.rs:43, 52, 55, 58-59) are I/O. Their results are parameters, and the line is returned as a string.
- The `Debug` text of `ThreadId` comes from the standard library. Only the stripping and parsing of it are modelled, for any input string.
- The floating-point colour derivation (src/lib.rs:110-122, 133-141) is left out. This covers the hash-to-hue normalisation, the float `%` and `abs`, the chroma and offset arithmetic, and the saturating `as u8` casts. It is the parameter `paint` of `Beacons.New`, applied to the hash, so no claim is made about channel ranges or contrast. Within `hsl_to_rgb` only the sector table is modelled, and the sector index is taken as a given `u8`.
- `Beacons.New`: the colours are stated only as `paint` applied to the hash of the value, because the float pipeline that fixes them is not modelled.
- Beacons.FromPtr: the colours are stated as for `Beacons.New`, as `paint` applied to the hash of the address.
- Beacons.FromRef: the colours are stated as for `Beacons.New`, as `paint` applied to the hash of the address.
- Pointer-to-integer casts in `from_ptr` and `from_ref` are not modelled. The address is given as a `u64`.
- Mix.Hash: no concrete test vector for a non-zero input is proved, because evaluating the bitwise xor on 64-bit literals is too costly for the verifier. The hash is characterised by its inverse, its value at 0 and the lemmas above.
- LinePrefix.ModeLetter: the contract states only that each tag is one letter. Which letter belongs to which mode is the definition itself, since `RUBICON_MODE` is a fixed build setting.
