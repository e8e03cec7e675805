# way-cooler-lock, modelled in Dafny

way-cooler-lock is a screen locker for the Way Cooler Wayland compositor. It
covers each output with a fullscreen surface backed by a shared-memory file.
It collects the keys the user types, and it tints the screen with a colour
derived from what has been typed. On Enter it hands the username and the
typed password to a C authentication routine. The blur effect turns the
compositor's screen capture into RGBA bytes and premultiplies the pixels by
their alpha. It also places a small square, meant to signal input.

This project models these five parts:

- `color.dfy` (`Colors`): the colour value and how it packs into, and unpacks
  from, a 32-bit pixel word on a little-endian host.
- `window.dfy` (`Display`): `Resolution` and its mode event, and `Window`.
  The window's backing file is a `seq<u8>` that the methods overwrite from
  offset 0. The requests sent to the display server are appended to a log,
  `requests`.
- `input.dfy` (`Keyboard`): the `Input` keyboard handler as a class. Its
  `Key` and `UpdateScreenColor` methods are proved against the pure
  transition function `Step` and the wrapping fold `Fold`. The
  authentication routine is a parameter of each key event. `PamAuth` applies
  the C routine to the two C strings.
- `blur.dfy` (`Blur`): `convert_to_png` as the in-place XOR loop over an
  `array<u8>`, and `rgba_conversion`. It also has the per-pixel
  premultiply loop of `get_screen`, also in place, and the arithmetic that
  places the flashing square.
- `pam.dfy` (`Pam`): `check_auth`, with a C string read as the bytes from the
  pointer up to and including a NUL terminator.

`primitives.dfy` (`Primitives`) holds the shared machine integers `u8`,
`u32` and `i32`. Rust's `as` casts between them are written out as explicit
functions, as is `wrapping_add`. Byte XOR is defined bit by bit.

Some panics of the source become preconditions:

- a `u32` product that overflows: `w * h`, `w * h * 4`, `w * 4` and
  `num * alpha`. These panic only in a build with overflow checks on, such as
  a debug build;
- the underflowing subtraction `res.w - 32` or `res.h - 32`, which also panics
  only with overflow checks on, and a remainder by zero when a side is
  exactly 32, which panics in every build;
- `assert_ne!(res.size(), 0)`;
- `CString::new` on a string that holds a NUL.

## Model

| member | source | states |
|---|---|---|
| Colors.SolidColor | src/color.rs:18-25 | the three channels are kept and alpha is 255 |
| Colors.ToU8s | src/color.rs:30-32 | the tuple is (red, green, blue, alpha) in that order, so it rebuilds the colour exactly |
| Colors.FromU8s | src/color.rs:34-36 | equals `solid_color` of the same channels |
| Colors.LeBytes | src/color.rs:39-44 | the four memory bytes of a word, low byte first, weigh 1, 2^8, 2^16 and 2^24 to make the word |
| Colors.FromLeBytes | src/color.rs:39-44 | `transmute` of four bytes gives the word whose memory image is exactly those bytes |
| Colors.LeBytesInverse | src/color.rs:39-44 | reading back a word's memory image gives the word |
| Colors.ToU32 | src/color.rs:39-44 | the packed word is `red + green<<8 + blue<<16 + alpha<<24`, lying in memory as red, green, blue, alpha |
| Colors.FromU32 | src/color.rs:47-53 | red, green and blue are the word's low three bytes, and alpha is 255 |
| Colors.FromU32IgnoresTopByte | src/color.rs:47-53 | the top byte of the word has no effect on the colour |
| Colors.ToU32Injective | src/color.rs:39-44 | two colours with the same packed word are equal |
| Colors.RoundTripIff | src/color.rs:39-53 | unpacking a packed colour returns it exactly when the colour is opaque |
| Colors.RoundTrip | src/color.rs:39-53 | `Color::from(solid_color(r, g, b).to_u32())` is `solid_color(r, g, b)` for every byte triple |
| Colors.BlackIsOpaqueBlack | src/window.rs:59 | `0x000000.into()` is (0, 0, 0, 255), packed 0xff000000, with memory bytes 0, 0, 0, 255 |
| Display.Resolution.constructor | src/window.rs:24-29 | a new resolution is 0 by 0 |
| Display.Resolution.Size | src/window.rs:32-34 | defined only when `w * h` fits in a `u32`; zero exactly when a side is zero |
| Display.Resolution.Mode | src/window.rs:150-162 | with bit 0 of `flags` set, `w` and `h` become the `i32` arguments cast to `u32`; otherwise they are unchanged |
| Display.WriteAt | src/window.rs:98-107 | writing from offset `pos` replaces `bytes.len()` bytes there and keeps every other byte; the file grows only when the write runs past its end |
| Display.Words | src/window.rs:60-63 | `n` calls of `write_u32` produce `4 * n` bytes |
| Display.WordsWord | src/window.rs:60-63 | every 4-byte word of the written run is the colour's packed word |
| Display.WriteAtConsecutive | src/window.rs:124-127 | two writes, the second starting where the first ended, equal one write of both |
| Display.FullOverwrite | src/window.rs:117-129 | writing the words over a file no longer than they are leaves exactly the words, whatever the file held |
| Display.Redraw | src/window.rs:108-110 | the redraw is damage at (0, 0) of size `w` by `h` (when both fit in an `i32`), then attach at (0, 0), then commit, in that order |
| Display.Window.constructor | src/window.rs:47-88 | requires a non-zero size; the file is `size()` black words, `4 * size()` bytes; the requests are surface, shell surface, pool of `w*h*4` bytes, buffer of stride `w*4` in ARGB8888, fullscreen on the output, attach, commit |
| Display.Window.WriteWords | src/window.rs:60-63 | the `for` loop of `write_u32` calls writes `n` words from offset 0 |
| Display.Window.WriteBytes | src/window.rs:96-111 | requires a non-zero size; the file is overwritten from offset 0 with `bytes`, and the redraw requests are appended |
| Display.Window.UpdateColor | src/window.rs:114-133 | requires a non-zero size; the file is overwritten from offset 0 with `size()` packed words of the colour (and is exactly those when it was no longer), then the redraw requests are appended |
| Display.Window.Ping | src/window.rs:136-141 | a ping is answered by one pong with the same serial |
| Display.UpdateColorKeepsLength | src/window.rs:117-129 | on a file of exactly `4 * size()` bytes, the colour update keeps the length and every word is the colour's packed word |
| Display.WriteBytesFullFrame | src/window.rs:96-107 | writing exactly as many bytes as the file holds leaves exactly those bytes |
| Display.WriteAtIdempotent | src/window.rs:96-111 | writing the same bytes twice leaves the same file as writing them once |
| Display.NewFileIsBlack | src/window.rs:58-63 | every word of a new window's file is the bytes 0, 0, 0, 255 |
| Primitives.I32AsU32 | src/window.rs:159-160 | `width as u32` is the same value modulo 2^32, and is unchanged when non-negative |
| Primitives.U32AsI32 | src/window.rs:70-74 | `x as i32` is the same value modulo 2^32, and is unchanged below 2^31 |
| Primitives.CastsRoundTrip | src/window.rs:70-74 | the two reinterpreting casts undo each other |
| Primitives.TruncU8 | src/effects/blur.rs:129 | `as u8` keeps the value modulo 256, and is unchanged below 256 |
| Primitives.WrappingAdd | src/input.rs:65-67 | `wrapping_add` is the sum, or the sum less 256 when the sum reaches 256 |
| Primitives.WrappingAddAssociates | src/input.rs:65-67 | wrapping addition is associative |
| Primitives.WrappingAddCommutes | src/input.rs:65-67 | wrapping addition is commutative |
| Primitives.Xor | src/effects/blur.rs:114-122 | `^` on bytes is zero exactly when the operands are equal; XOR with zero gives the other operand; the low bit is the parity of the two low bits |
| Primitives.XorCommutes | src/effects/blur.rs:114-122 | byte XOR is commutative |
| Primitives.XorCancels | src/effects/blur.rs:114-122 | XOR with the same byte twice gives the other operand back, in all four argument orders |
| Keyboard.EncodeChar | src/input.rs:92-95 | the UTF-8 encoding of a character is 1 to 4 bytes, and holds a NUL exactly for the NUL character |
| Keyboard.Utf8 | src/input.rs:92-95 | a string's UTF-8 bytes are empty exactly when the string is, and hold a NUL exactly when the string does |
| Keyboard.CString | src/input.rs:92-95 | `CString::new(s).as_ptr()` points at NUL-terminated bytes whose first byte is the NUL exactly when `s` is empty |
| Keyboard.IsEnter | src/input.rs:89-90 | the keys that submit the password are exactly Return and KP_Enter |
| Keyboard.PamAuth | src/input.rs:91-96 | the check is `check_auth` on the C strings of the username and the buffer; `Keyboard.PamAuthIff` states when it passes |
| Keyboard.PamAuthIff | src/input.rs:91-97 | for strings without NUL, the authentication call returns true exactly when both strings are non-empty |
| Keyboard.SwapBytes | src/input.rs:62 | the memory image of `x.to_be()` is the memory image of `x` reversed |
| Keyboard.LowByte | src/input.rs:60-64 | `bytes[3]` of the memory image of `(chr as u32).to_be()` is the code point modulo 256 |
| Keyboard.Add | src/input.rs:65-67 | the three `wrapping_add`s at once, channel by channel; `Keyboard.AddAssociates` and `Keyboard.AddCommutes` are its laws |
| Keyboard.Gain | src/input.rs:60-67 | what one character adds: its low byte to red, a third of it to green, half of it to blue (`Keyboard.FoldOne`) |
| Keyboard.Fold | src/input.rs:58-68 | the accumulators the loop leaves after the whole string, from zero; `Keyboard.FoldAppend` and `Keyboard.FoldOne` characterise it, and `Keyboard.Input.UpdateScreenColor` is proved equal to it |
| Keyboard.AddAssociates | src/input.rs:65-67 | the channel-wise wrapping sum is associative |
| Keyboard.AddCommutes | src/input.rs:65-67 | the channel-wise wrapping sum is commutative |
| Keyboard.FeedbackColor | src/input.rs:58-70 | the feedback colour is opaque, with channels the fold's red, green and blue |
| Keyboard.FoldAppend | src/input.rs:58-68 | folding a concatenation is the channel-wise wrapping sum of the two folds |
| Keyboard.FoldOne | src/input.rs:60-67 | one character adds its low byte to red, a third of it to green and half of it to blue |
| Keyboard.FeedbackAfterTyping | src/input.rs:58-70 | typing more text shifts each channel by that text's fold alone, modulo 256 |
| Keyboard.FeedbackOrderInsensitive | src/input.rs:58-70 | the colour does not depend on the order in which the pieces of text were typed |
| Keyboard.Pop | src/input.rs:107 | `pop` drops the last character, and does nothing on an empty string |
| Keyboard.Step | src/input.rs:87-115 | a key event never clears the logged-in flag, never lowers the failure count, and keeps the buffer free of NUL |
| Keyboard.ReleaseIsNoOp | src/input.rs:87 | a key event that is not a press changes nothing |
| Keyboard.EnterSubmits | src/input.rs:89-105 | Return or KP_Enter call the authentication with the username and the whole buffer; success sets the flag, failure adds one to the count, and the buffer is cleared either way |
| Keyboard.BackspaceDropsLast | src/input.rs:106-108 | Backspace removes the last character (nothing on an empty buffer) and leaves the flag, count and colour alone |
| Keyboard.TypingAppends | src/input.rs:109-114 | any other press with text appends it and sets the colour from the whole new buffer; without text nothing changes |
| Keyboard.EnterWithPam | src/input.rs:96-99 | with the linked check and a non-empty username, Enter logs in exactly when the buffer is non-empty, and otherwise counts a failure |
| Keyboard.Run | src/input.rs:77-117 | a sequence of key events whose texts hold no NUL keeps the buffer free of NUL |
| Keyboard.RunMonotone | src/input.rs:98-101 | over any sequence of key events whose texts hold no NUL, from a state with a NUL-free username and buffer (which rules out Enter's panic), the login is never undone and the failure count never decreases |
| Keyboard.TypedPasswordLogsIn | src/input.rs:87-114 | for any NUL-free characters `a`, `b`, `c`, typing `a`, `b`, Backspace, `c`, Enter against a check that accepts only the password `[a, c]` logs in, with no failures and an empty buffer |
| Keyboard.Input.constructor | src/input.rs:34-48 | a new handler has an empty buffer, is not logged in, has no failures and no colour |
| Keyboard.Input.IsLoggedIn | src/input.rs:52-54 | reports the logged-in flag |
| Keyboard.Input.UpdateScreenColor | src/input.rs:57-72 | the `for` loop over the buffer leaves the wrapping fold of the whole buffer as the new colour |
| Keyboard.Input.Key | src/input.rs:77-117 | requires NUL-free username and buffer on Enter; the new state is `Step` of the old one |
| Pam.Strlen | src/pam/wrapper.c:18-19 | `strlen` is the index of the first NUL |
| Pam.StrlenZero | src/pam/wrapper.c:18-19 | a C string has length 0 exactly when its first byte is the NUL |
| Pam.CheckAuth | src/pam/wrapper.c:9-22 | a NULL username or password gives false; otherwise the result is true exactly when both strings are non-empty |
| Blur.PixelAtBytes | src/effects/blur.rs:112-123 | the pixel at offset `i` is the four bytes from `i` on |
| Blur.OverwriteNext | src/effects/blur.rs:112-123 | rewriting the pixel just after a finished prefix places it between the prefix and the untouched rest |
| Blur.MapPixels | src/effects/blur.rs:109-111 | applying a per-pixel map keeps the buffer length |
| Blur.MapPixelsAt | src/effects/blur.rs:112-123 | pixel `k` of the mapped buffer is the map applied to pixel `k` of the original |
| Blur.MapPixelsKeepsTail | src/effects/blur.rs:109-111 | the trailing `len % 4` bytes are left untouched |
| Blur.MapPixelsStep | src/effects/blur.rs:112-124 | one loop turn that rewrites pixel `k` extends the finished prefix by one pixel |
| Blur.MapPixelsDone | src/effects/blur.rs:112 | once the loop has passed every whole pixel, the buffer is the mapped buffer |
| Blur.Rotate | src/effects/blur.rs:113-122 | `a b c d` becomes `d a b c`: the last byte moves to the front and the others shift up by one; the reverse rotation gives the pixel back |
| Blur.RotatePixelsAt | src/effects/blur.rs:113 | every whole pixel `a b c d` becomes `d a b c` |
| Blur.RotatePixelsInverse | src/effects/blur.rs:113 | rotating the pixels back gives the original buffer |
| Blur.RotatePermutesPixel | src/effects/blur.rs:113 | rotating a pixel only moves its bytes |
| Blur.RotatePixelsPermutes | src/effects/blur.rs:112-124 | the converted buffer is a permutation of the original |
| Blur.RotateBySwaps | src/effects/blur.rs:114-122 | swapping bytes 2 and 3, then 0 and 2, then 1 and 2 rotates the pixel |
| Blur.RotateInPlace | src/effects/blur.rs:114-122 | the nine XOR statements rotate the pixel at `i` and leave every other byte alone |
| Blur.RotateNext | src/effects/blur.rs:112-124 | one turn of the loop keeps the invariant: the first `k + 1` pixels are rotated and the rest is untouched |
| Blur.ConvertToPng | src/effects/blur.rs:108-125 | the buffer becomes its rotated image: every whole pixel rotated, length and trailing bytes kept |
| Blur.RgbaConversion | src/effects/blur.rs:127-130 | requires the product to fit in a `u32`; for an alpha of at most 255 the result is `num * alpha / 255`, no larger than `num`; it is `num` at 255 and 0 at 0 |
| Blur.RgbaConversionMonotone | src/effects/blur.rs:127-130 | a larger alpha never gives a smaller channel |
| Blur.ChannelProduct | src/effects/blur.rs:95-98 | a channel times an alpha byte is at most 255 * 255, so it fits in a `u32` |
| Blur.Premultiply | src/effects/blur.rs:95-102 | the loop body on one pixel; `Blur.PremultiplyPixel` states its result channel by channel |
| Blur.PremultiplyPixel | src/effects/blur.rs:94-103 | channel 0 becomes converted channel 2, channel 1 stays converted channel 1, channel 2 becomes converted channel 0, and alpha is kept; no channel grows; an opaque pixel only has channels 0 and 2 swapped; a fully transparent one becomes zero |
| Blur.PremultiplyInPlace | src/effects/blur.rs:95-102 | the loop body rewrites the pixel at `i` by the premultiply step and leaves every other byte alone |
| Blur.PremultiplyPixels | src/effects/blur.rs:93-103 | every pixel of the RGBA buffer is premultiplied in place |
| Blur.SquareOrigin | src/effects/blur.rs:54-57 | requires both sides above 32; the 32 by 32 square then satisfies `x + 32 < w` and `y + 32 < h` |
| Blur.SquareOriginCovers | src/effects/blur.rs:54-57 | every origin with `x + 32 < w` and `y + 32 < h` is the result for some random words |

## Left out

- `src/main.rs` registers the Wayland globals and dispatches events. It is I/O only.
- `src/pam/mod.rs` is only an `extern "C"` declaration, and `build.rs` is
  build configuration. The C routine itself is modelled in `pam.dfy`, and
  `Keyboard.PamAuth` calls it.
- The Wayland objects are not modelled beyond the request log: surfaces,
  pools, buffers and the shell surface, with their identities and lifetimes.
  Wayland event dispatch is not modelled either.
- The temporary file, `BufWriter`, `seek`, `try_clone`, `into_inner` and
  their `expect` panics are not modelled. The file is a byte sequence, and
  these calls are taken to succeed.
- `Display.Window.WriteBytes`: the code does not require `bytes.len()` to be
  `4 * size()`, and neither does the model. A longer write grows the file.
  `Display.WriteBytesFullFrame` states the exact-length case.
- `get_screen`'s D-Bus round trip, PNG encoding and decoding, and `flipv` are
  image-library and IPC code. The model keeps the byte loops on either side
  of them.
- `Blur::new` and `Blur::blur` call the image crate's floating-point Gaussian
  blur. They are not modelled.
- `random_input_circles` keeps only the origin arithmetic, with the two
  random words as parameters. The `rand` calls, `SubImage`, `invert`,
  `imageops::replace` and the final `write_bytes` are not modelled.
- `Input::new` calls `getuid` and `getpwuid` to find the username; in the
  model the username is a constructor parameter. `Input`'s unused
  `window_id` field is not modelled.
- `Keyboard.Input.Key`: `failed` is a `nat`. The `u32` overflow of
  `self.failed += 1` after 2^32 - 1 failures is not modelled. The
  `println!` of the failure count is left out.
- `Blur.PremultiplyPixels` requires a length that is a multiple of 4. The
  loop runs over the pixels of an RGBA image, whose raw buffer always has
  four bytes per pixel.
- `Blur.ConvertToPng` and `Blur.PremultiplyPixels` split each loop body
  into its own method: `Blur.RotateInPlace` and `Blur.PremultiplyInPlace`.
  The statements are the source's, in the source's order.
- `Colors` and `Keyboard.SwapBytes`: `transmute`, `NativeEndian` and `to_be()` (src/input.rs:62) are fixed to a little-endian host.
- The code never checks that the file stays at `4 * w * h` bytes:
  `write_bytes` writes whatever it is given (see `Display.Window.WriteBytes`
  above).
- A release build, without overflow checks, wraps the `u32` products and
  subtractions listed at the top instead of panicking. The model keeps the
  preconditions and does not capture those wrapped results.
- `Pam.CheckAuth`: the messages "username was null" and "password was null"
  that `check_auth` prints to standard error are left out.

