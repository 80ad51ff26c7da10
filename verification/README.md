# Printable-ASCII one-time pad, in Dafny

This project models the core of `hwrng_onetimepads`, a pencil-and-paper
one-time-pad kit:

- `encrypt_decrypt.py` encrypts and decrypts text with a one-time pad over the
  95 printable ASCII characters (code points 32 to 126). Encryption adds the
  pad character's index to the message character's index, plus one, modulo 95.
  Decryption subtracts the pad character's index and one more, modulo 95.
  The dispatcher `one_time_pad` checks, in this order, that the pad is long
  enough, that the message is printable, that the pad is printable, and that
  the mode is `encrypt` or `decrypt`. Each failed check raises `ValueError`.
- `one_time_pad.py` prints pad sheets. Its pure parts are modelled:
  - mapping each random byte to a printable character with `32 + byte % 95`;
  - the printable key table;
  - splitting the pad text into fixed-width rows, each labelled with a running
    character count.

Text is a `seq<int>` of code points. A raised `ValueError` is `Err(reason)`.
The `Reason` names which of the three error messages was raised. For a
non-printable character it also carries that character.

Modules:

- `Printable` (`printable.dfy`): the alphabet bounds shared by both files.
- `Cipher` (`cipher.dfy`): `encrypt_decrypt.py`.
- `PadSheet` (`pad_sheet.dfy`): the pure parts of `one_time_pad.py`.

The encryption offset (+1) and decryption offset (-1) are kept exactly as
written. The TODO in the source flags the indexing as questionable.
`Cipher.RoundTrip` and `Cipher.RoundTripConverse` prove that the two offsets
cancel, so decryption still inverts encryption. The proof only needs the
message to be printable and the pad to be long enough. The pad's own
characters may be anything.

The pad sheet prints the rule "encryption is (message+otp)%95" with the space at
index 0. The code's encryption is that rule shifted one place along the
alphabet. `Cipher.EncryptIsSheetRulePlusOne` states this. So a message
encrypted by hand from the sheet is not what the program produces, and the
program decrypts it one character off. `Cipher.SheetCipherDecryptsOneOff`
proves this.

## Model

| member | source | states |
|---|---|---|
| Cipher.ValidatePrintable | encrypt_decrypt.py:10-14 | Returns normally iff every character is in 32..126. Otherwise it raises naming the first non-printable character, and every character before it is printable. |
| Cipher.AddChar | encrypt_decrypt.py:20 | One encrypted character is always printable, because Python's `%` with modulus 95 is never negative. |
| Cipher.SubChar | encrypt_decrypt.py:27 | One decrypted character is always printable, even when the difference is negative. |
| Cipher.AddStrings | encrypt_decrypt.py:17-22 | Encryption over `zip`. Its length is the shorter of message and pad, every output character is printable, and position i is the encryption of message[i] with pad[i]. |
| Cipher.SubtractStrings | encrypt_decrypt.py:24-29 | Decryption over `zip`. Its length is the shorter of the two inputs, every output character is printable, and position i is the decryption of message[i] with pad[i]. |
| Cipher.OneTimePad | encrypt_decrypt.py:31-49 | A short pad is rejected before any character is checked. A bad message character is reported before a bad pad character. An unknown mode is rejected only after both inputs pass. The result is Ok exactly when all four checks pass, and then it has the message's length. `encrypt` goes to AddStrings and `decrypt` goes to SubtractStrings. |
| Cipher.CharRoundTrip | encrypt_decrypt.py:17-29 | Decrypting the encryption of a printable character with the same pad character gives it back. The +1 and -1 cancel for any pad value. |
| Cipher.CharRoundTripConverse | encrypt_decrypt.py:17-29 | Encrypting the decryption of a printable character with the same pad character gives it back. |
| Cipher.RoundTrip | encrypt_decrypt.py:17-29 | For a printable message and a pad at least as long, subtract_strings(add_strings(m, o), o) == m. |
| Cipher.RoundTripConverse | encrypt_decrypt.py:17-29 | For a printable ciphertext and a pad at least as long, add_strings(subtract_strings(c, o), o) == c. |
| Cipher.PadTailIgnored | encrypt_decrypt.py:19-22 | Two pads that agree on the message's length give the same encryption and the same decryption. Pad characters beyond the message never matter. |
| Cipher.SpaceEncryptsToBang | encrypt_decrypt.py:20 | Encrypting `" "` with pad `" "` yields `"!"`. |
| Cipher.EncryptIsSheetRulePlusOne | encrypt_decrypt.py:16-20 | For printable inputs, the code's encryption index is the sheet's `(message+otp)%95` plus one, modulo 95, so the two never agree. |
| Cipher.SheetEncrypt | one_time_pad.py:50 | The sheet's encryption rule, the sum of the two indices modulo 95, always yields a printable character, and a space in the pad leaves the message character unchanged. |
| Cipher.SheetCipherDecryptsOneOff | one_time_pad.py:49-50 | A character encrypted by hand with the sheet's rule decrypts, under the program's decryption, to the character one place earlier in the alphabet (wrapping at the space), so never to itself. |
| Cipher.EncryptThenDecrypt | encrypt_decrypt.py:31-49 | Whenever `encrypt` succeeds, `decrypt` of its result with the same pad succeeds and returns the original message. |
| Cipher.DecryptThenEncrypt | encrypt_decrypt.py:31-49 | Whenever `decrypt` succeeds, `encrypt` of its result with the same pad succeeds and returns the original ciphertext. |
| PadSheet.MapByte | one_time_pad.py:32 | Every byte maps to a printable character. |
| PadSheet.MapBytes | one_time_pad.py:32-33 | The random text has exactly one character per byte, in byte order, and all of them are printable. |
| PadSheet.MapByteOnto | one_time_pad.py:32 | Every printable character is produced by some byte. |
| PadSheet.MapByteCollides | one_time_pad.py:32 | The mapping is not injective: bytes b and b+95 give the same character. |
| PadSheet.ZeroAnd95AreSpace | one_time_pad.py:32 | Bytes 0 and 95 both give the space. |
| PadSheet.MapByteBias | one_time_pad.py:32 | Space through `a` each come from 3 of the 256 byte values. `b` through `~` each come from only 2. |
| PadSheet.GeneratedPadWorks | one_time_pad.py:32-33 | Generated text passes the cipher's validation. A generated pad at least as long as a printable message encrypts it, and decrypts the result back to the message. |
| PadSheet.Range | one_time_pad.py:64 | `range(lo, hi)` has hi - lo elements (none if hi <= lo), and element i is lo + i. |
| PadSheet.PrintableKey | one_time_pad.py:64 | The key has 95 characters, and character i is `chr(32 + i)`. |
| PadSheet.KeyListsAlphabet | one_time_pad.py:64 | A code point appears in the key iff it is printable. It sits at the index the cipher arithmetic gives it. |
| PadSheet.KeyLines | one_time_pad.py:65 | The key rows join back into the key. At width 95 or more, the key is one row. |
| PadSheet.LinesFrom | one_time_pad.py:84 | The rows from a start offset join back into the rest of the text. Each row is non-empty and at most `width` long, and every row but the last is exactly `width` long. |
| PadSheet.SplitLines | one_time_pad.py:84 | The rows join back into the text exactly. No row is empty, no row is longer than `width`, and every row but the last is exactly `width` long. |
| PadSheet.SplitLinesAt | one_time_pad.py:84 | Row k is the slice of the text at offset k * width, clamped at the end. The rows before it hold exactly k * width characters. |
| PadSheet.SplitLinesCount | one_time_pad.py:84 | The number of rows is ceil(len(text) / width). |
| PadSheet.Decimal | one_time_pad.py:90 | `str(n)` is a non-empty string of decimal digits with no leading zero. It parses back to n, and its length is the number of digits of n. |
| PadSheet.Label | one_time_pad.py:90 | `f"{n:<4}"` is the digits of n followed by spaces up to four characters. Below 10000 it is exactly four characters. |
| PadSheet.NumberLines | one_time_pad.py:85-92 | Each row's counter equals the number of characters in the rows before it. Each row drawn is the counter's label followed by the row. |
| PadSheet.SheetRows | one_time_pad.py:84-92 | There are ceil(len(text)/width) rows. Row k is labelled with its offset k * width in the text, and the label is followed by that row's slice of the text. For texts of at most 10000 characters, the pad characters of every row start at column 4. |

## Left out

- Reading `/dev/hwrng` and the exception handling around it are I/O. The model takes the bytes read as a parameter.
- The reportlab canvas is a foreign library and is not modelled: drawing, coordinates, the dashed column lines, and the drawing of the two documentation lines. The encryption rule those lines state is modelled as `Cipher.SheetEncrypt`.
- The column-number header (`one_time_pad.py:58`) is presentation only and is not modelled.
- The layout constants (`one_time_pad.py:8-21`) are derived with floating point. The characters per row is a parameter `width > 0` instead; it is 100 on letter paper. A zero step makes Python's `range` raise, and the constant is never zero.
- The multiple-of-5 adjustment of the row width is not modelled. Nothing modelled depends on it.
- The `y < MARGIN` early exit when a page is full depends on float coordinates. The model draws every row.
- Command-line parsing, `main` and printing results or errors are CLI glue.
- The default `mode="encrypt"` argument is not modelled separately. Callers pass the mode.
- Error message wording is kept only as the reason it names. For a bad character, the model carries the code point instead of its `repr`.
- Input characters are any integers, not only Unicode code points. This is a harmless widening: the arithmetic never rejects a value.
- The alphabet is fixed, there is no checksum, and every error is a plain `ValueError`; the model has exactly these.
