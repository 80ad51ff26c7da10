/**
  The pure pieces of the pad-sheet generator, one_time_pad.py: mapping random
  bytes to printable characters, the printable key table printed on the sheet,
  and the splitting of the pad text into fixed-width rows, each labelled with a
  running character count.

  The number of characters per row, 100 on letter paper, is a parameter
  `width` here; it is derived from page geometry in the source.
 */
module PadSheet {
  import opened Printable
  import Cipher

  /** A value read from the random-number device. */
  type byte = b: int | 0 <= b < 256

  // ---------------------------------------------------------------------------
  // Bytes to pad characters
  // ---------------------------------------------------------------------------

  /** One random byte as a pad character: the byte modulo 95, counted from the space. */
  function MapByte(b: byte): (c: int)
    ensures IsPrintable(c)
  {
    StartPrintable + b % PrintableLength
  }

  /** The random text: one pad character per byte, in order. */
  function MapBytes(raw: seq<byte>): (text: seq<int>)
    ensures |text| == |raw|
    ensures AllPrintable(text)
    ensures forall i :: 0 <= i < |raw| ==> text[i] == MapByte(raw[i])
  {
    if |raw| == 0 then [] else [MapByte(raw[0])] + MapBytes(raw[1..])
  }

  /** Every pad character is produced by some byte: the byte equal to its index. */
  lemma MapByteOnto(c: int)
    requires IsPrintable(c)
    ensures exists b: byte :: MapByte(b) == c
  {
    var b: byte := c - StartPrintable;
    assert MapByte(b) == c;
  }

  /** The mapping is not injective: bytes 95 apart give the same character. */
  lemma MapByteCollides(b: byte)
    requires b + PrintableLength < 256
    ensures MapByte(b) == MapByte(b + PrintableLength)
  {
  }

  /** Bytes 0 and 95 are both mapped to the space. */
  lemma ZeroAnd95AreSpace()
    ensures MapByte(0) == MapByte(95) == ' ' as int
  {
  }

  /** The bytes that the generator maps to the character `c`. */
  function Preimage(c: int): set<int> {
    set b: int | 0 <= b < 256 && MapByte(b) == c
  }

  /**
    The mapping is biased: since 256 == 2 * 95 + 66, the first 66 printable
    characters (space through `a`) each come from three byte values, and the
    remaining 29 (`b` through `~`) from only two.
   */
  lemma MapByteBias(c: int)
    requires IsPrintable(c)
    ensures c <= 'a' as int ==> |Preimage(c)| == 3
    ensures c > 'a' as int ==> |Preimage(c)| == 2
  {
    var r := c - StartPrintable;
    forall b | 0 <= b < 256 && MapByte(b) == c
      ensures b == r || b == r + 95 || b == r + 190
    {
      var q := b / PrintableLength;
      assert b == q * PrintableLength + r;
      assert 0 <= q <= 2;
    }
    if c <= 'a' as int {
      assert Preimage(c) == {r, r + 95, r + 190};
    } else {
      assert Preimage(c) == {r, r + 95};
    }
  }

  /** The generated text is a pad the cipher accepts, and it round-trips any message it covers. */
  lemma GeneratedPadWorks(message: seq<int>, raw: seq<byte>)
    requires AllPrintable(message)
    requires |raw| >= |message|
    ensures Cipher.ValidatePrintable(MapBytes(raw)).Ok?
    ensures Cipher.OneTimePad(message, MapBytes(raw), "encrypt").Ok?
    ensures Cipher.OneTimePad(
              Cipher.OneTimePad(message, MapBytes(raw), "encrypt").value,
              MapBytes(raw), "decrypt") == Cipher.Ok(message)
  {
    var pad := MapBytes(raw);
    assert Cipher.ValidatePrintable(pad).Ok?;
    Cipher.EncryptThenDecrypt(message, pad);
  }

  // ---------------------------------------------------------------------------
  // The printable key table
  // ---------------------------------------------------------------------------

  /** The integers from `lo` up to but not including `hi`, in increasing order. */
  function Range(lo: int, hi: int): (r: seq<int>)
    ensures |r| == if lo <= hi then hi - lo else 0
    ensures forall i :: 0 <= i < |r| ==> r[i] == lo + i
    decreases hi - lo
  {
    if lo >= hi then [] else [lo] + Range(lo + 1, hi)
  }

  /** The key printed at the top of the sheet: every printable code point, in increasing order. */
  function PrintableKey(): (key: seq<int>)
    ensures |key| == PrintableLength
    ensures forall i :: 0 <= i < |key| ==> key[i] == StartPrintable + i
  {
    Range(StartPrintable, EndPrintable + 1)
  }

  /**
    The key lists exactly the cipher's alphabet, each character at the index
    the cipher arithmetic gives it.
   */
  lemma KeyListsAlphabet(c: int)
    ensures c in PrintableKey() <==> IsPrintable(c)
    ensures IsPrintable(c) ==> PrintableKey()[c - StartPrintable] == c
  {
  }

  /** The key split into rows of the sheet's width. */
  function KeyLines(width: int): (lines: seq<seq<int>>)
    requires width > 0
    ensures Concat(lines) == PrintableKey()
    ensures width >= PrintableLength ==> lines == [PrintableKey()]
  {
    var lines := SplitLines(PrintableKey(), width);
    if width >= PrintableLength then
      assert lines == [Slice(PrintableKey(), 0, width)];
      assert Slice(PrintableKey(), 0, width) == PrintableKey()[0..PrintableLength];
      assert PrintableKey()[0..PrintableLength] == PrintableKey();
      lines
    else
      lines
  }

  // ---------------------------------------------------------------------------
  // Splitting the pad text into rows
  // ---------------------------------------------------------------------------

  /** All rows joined back together. */
  function Concat(lines: seq<seq<int>>): seq<int> {
    if |lines| == 0 then [] else lines[0] + Concat(lines[1..])
  }

  /** `ceil(n / d)` for positive `d`. */
  function CeilDiv(n: nat, d: int): int
    requires d > 0
  {
    (n + d - 1) / d
  }

  /** A slice of the text between two non-negative bounds, each clamped to the text's end. */
  function Slice(text: seq<int>, lo: nat, hi: nat): seq<int> {
    var a := Min(lo, |text|);
    var b := Min(if hi < a then a else hi, |text|);
    text[a..b]
  }

  /** The rows starting at `start`, `start + width`, ... as long as the start is inside the text. */
  function LinesFrom(text: seq<int>, width: int, start: nat): (lines: seq<seq<int>>)
    requires width > 0
    requires start <= |text|
    ensures Concat(lines) == text[start..]
    ensures forall k :: 0 <= k < |lines| ==> 0 < |lines[k]| <= width
    ensures forall k :: 0 <= k < |lines| - 1 ==> |lines[k]| == width
    decreases |text| - start
  {
    if start == |text| then []
    else if start + width >= |text| then [Slice(text, start, start + width)]
    else [Slice(text, start, start + width)] + LinesFrom(text, width, start + width)
  }

  /**
    The text cut into rows: one row for each start offset 0, `width`,
    `2 * width`, ... below the text's length, each row running `width`
    characters from its start or to the end of the text.
   */
  function SplitLines(text: seq<int>, width: int): (lines: seq<seq<int>>)
    requires width > 0
    ensures Concat(lines) == text
    ensures forall k :: 0 <= k < |lines| ==> 0 < |lines[k]| <= width
    ensures forall k :: 0 <= k < |lines| - 1 ==> |lines[k]| == width
  {
    LinesFrom(text, width, 0)
  }

  /** If `q * d <= x < (q + 1) * d` then `x / d == q`. */
  lemma DivUnique(x: int, d: int, q: int)
    requires d > 0
    requires q * d <= x < q * d + d
    ensures x / d == q
  {
    var q' := x / d;
    var r' := x % d;
    assert x == q' * d + r' && 0 <= r' < d;
    if q' < q {
      assert (q' + 1) * d == q' * d + d;
      MulMonotone(q' + 1, q, d);
    } else if q' > q {
      assert (q + 1) * d == q * d + d;
      MulMonotone(q + 1, q', d);
    }
  }

  lemma MulMonotone(a: int, b: int, d: int)
    requires a <= b && d > 0
    ensures a * d <= b * d
  {
    assert b * d - a * d == (b - a) * d;
  }

  /** Joining is compatible with appending rows. */
  lemma {:induction false} ConcatAppend(a: seq<seq<int>>, b: seq<seq<int>>)
    ensures Concat(a + b) == Concat(a) + Concat(b)
  {
    if |a| == 0 {
      assert a + b == b;
    } else {
      assert (a + b)[1..] == a[1..] + b;
      ConcatAppend(a[1..], b);
    }
  }

  /** Joining splits around any one row. */
  lemma {:induction false} ConcatAround(lines: seq<seq<int>>, k: nat)
    requires k < |lines|
    ensures Concat(lines) == Concat(lines[..k]) + lines[k] + Concat(lines[k + 1..])
  {
    assert lines == lines[..k] + ([lines[k]] + lines[k + 1..]);
    ConcatAppend(lines[..k], [lines[k]] + lines[k + 1..]);
    assert ([lines[k]] + lines[k + 1..])[1..] == lines[k + 1..];
  }

  /** `k` rows of length `width` join to `k * width` characters. */
  lemma {:induction false} ConcatUniform(lines: seq<seq<int>>, width: int, k: nat)
    requires k <= |lines|
    requires forall j :: 0 <= j < k ==> |lines[j]| == width
    ensures |Concat(lines[..k])| == k * width
    decreases k
  {
    if k == 0 {
      assert lines[..0] == [];
    } else {
      ConcatUniform(lines, width, k - 1);
      assert lines[..k] == lines[..k - 1] + [lines[k - 1]];
      ConcatAppend(lines[..k - 1], [lines[k - 1]]);
      assert Concat([lines[k - 1]]) == lines[k - 1];
      assert k * width == (k - 1) * width + width;
    }
  }

  /**
    Chunk `k` of the split is the slice of the text at offset `k * width`, and
    the chunks before it hold exactly the text before that offset.
   */
  lemma SplitLinesAt(text: seq<int>, width: int, k: nat)
    requires width > 0
    requires k < |SplitLines(text, width)|
    ensures k * width < |text|
    ensures SplitLines(text, width)[k] == text[k * width .. Min(k * width + width, |text|)]
    ensures |Concat(SplitLines(text, width)[..k])| == k * width
  {
    var lines := SplitLines(text, width);
    ConcatUniform(lines, width, k);
    ConcatAround(lines, k);
    var p := |Concat(lines[..k])|;
    assert text[p .. p + |lines[k]|] == lines[k];
  }

  /** The split has `ceil(|text| / width)` rows: the fewest rows of `width` that cover the text. */
  lemma SplitLinesCount(text: seq<int>, width: int)
    requires width > 0
    ensures |SplitLines(text, width)| == CeilDiv(|text|, width)
  {
    var lines := SplitLines(text, width);
    var c := |lines|;
    if c == 0 {
      assert |text| == |Concat(lines)| == 0;
      DivUnique(width - 1, width, 0);
    } else {
      ConcatUniform(lines, width, c - 1);
      ConcatAround(lines, c - 1);
      assert lines[c..] == [];
      var p := (c - 1) * width;
      assert p < |text| <= p + width;
      assert c * width == p + width;
      DivUnique(|text| + width - 1, width, c);
    }
  }

  // ---------------------------------------------------------------------------
  // Row labels
  // ---------------------------------------------------------------------------

  /** The value of a string of decimal digits, read most significant digit first. */
  function DecimalValue(s: seq<int>): int {
    if |s| == 0 then 0 else DecimalValue(s[..|s| - 1]) * 10 + (s[|s| - 1] - '0' as int)
  }

  /** `10` to the power `j`. */
  function Pow10(j: nat): nat {
    if j == 0 then 1 else 10 * Pow10(j - 1)
  }

  /** The decimal form of a natural number: its digits, without leading zeros. */
  function Decimal(n: nat): (s: seq<int>)
    ensures 1 <= |s|
    ensures forall i :: 0 <= i < |s| ==> '0' as int <= s[i] <= '9' as int
    ensures s[0] != '0' as int || n == 0
    ensures DecimalValue(s) == n
    ensures n < Pow10(|s|)
    ensures n >= Pow10(|s| - 1) || n == 0
    decreases n
  {
    if n < 10 then [n + '0' as int]
    else
      var s := Decimal(n / 10) + [n % 10 + '0' as int];
      assert s[..|s| - 1] == Decimal(n / 10);
      s
  }

  /** A number below 10000 has at most four digits. */
  lemma DecimalWidthBelow(n: nat)
    ensures n < 10000 ==> |Decimal(n)| <= 4
  {
    var s := Decimal(n);
    if n < 10000 && |s| > 4 {
      assert Pow10(4) == 10000;
      Pow10Monotone(4, |s| - 1);
    }
  }

  lemma {:induction false} Pow10Monotone(i: nat, j: nat)
    requires i <= j
    ensures Pow10(i) <= Pow10(j)
    decreases j
  {
    if i < j {
      Pow10Monotone(i, j - 1);
    }
  }

  /** A row label: the decimal digits of `n`, left-aligned and padded with spaces to four characters. */
  function Label(n: nat): (s: seq<int>)
    ensures |s| >= 4
    ensures |s| == if |Decimal(n)| < 4 then 4 else |Decimal(n)|
    ensures s[..|Decimal(n)|] == Decimal(n)
    ensures forall i :: |Decimal(n)| <= i < |s| ==> s[i] == ' ' as int
    ensures n < 10000 ==> |s| == 4
  {
    var digits := Decimal(n);
    DecimalWidthBelow(n);
    digits + seq(if |digits| < 4 then 4 - |digits| else 0, _ => ' ' as int)
  }

  /**
    The drawing loop over the rows: each row is preceded by the label of the
    running character count, which starts at 0 and grows by the length of each
    row drawn, so it always equals the number of characters drawn before.
   */
  method NumberLines(lines: seq<seq<int>>) returns (rows: seq<seq<int>>, counts: seq<nat>)
    ensures |rows| == |counts| == |lines|
    ensures forall k :: 0 <= k < |lines| ==> counts[k] == |Concat(lines[..k])|
    ensures forall k :: 0 <= k < |lines| ==> rows[k] == Label(counts[k]) + lines[k]
  {
    var total: nat := 0;
    rows := [];
    counts := [];
    var k := 0;
    while k < |lines|
      invariant 0 <= k <= |lines|
      invariant |rows| == |counts| == k
      invariant total == |Concat(lines[..k])|
      invariant forall j :: 0 <= j < k ==> counts[j] == |Concat(lines[..j])|
      invariant forall j :: 0 <= j < k ==> rows[j] == Label(counts[j]) + lines[j]
    {
      rows := rows + [Label(total) + lines[k]];
      counts := counts + [total];
      assert lines[..k + 1] == lines[..k] + [lines[k]];
      ConcatAppend(lines[..k], [lines[k]]);
      assert Concat([lines[k]]) == lines[k];
      total := total + |lines[k]|;
      k := k + 1;
    }
  }

  /**
    The pad rows of the sheet: the text split into rows of `width`, row `k`
    labelled with its offset `k * width` in the text. When the text has at
    most 10000 characters every label is four characters wide, so the pad
    characters of every row start in the same column.
   */
  method SheetRows(text: seq<int>, width: int) returns (rows: seq<seq<int>>, counts: seq<nat>)
    requires width > 0
    ensures |rows| == |counts| == CeilDiv(|text|, width)
    ensures forall k :: 0 <= k < |counts| ==> counts[k] == k * width < |text|
    ensures forall k :: 0 <= k < |rows| ==>
      rows[k] == Label(counts[k]) + text[counts[k] .. Min(counts[k] + width, |text|)]
    ensures |text| <= 10000 ==> forall k :: 0 <= k < |rows| ==>
      |rows[k]| >= 4 && rows[k][4..] == text[counts[k] .. Min(counts[k] + width, |text|)]
  {
    var lines := SplitLines(text, width);
    rows, counts := NumberLines(lines);
    SplitLinesCount(text, width);
    forall k | 0 <= k < |lines|
      ensures counts[k] == k * width < |text|
      ensures lines[k] == text[counts[k] .. Min(counts[k] + width, |text|)]
    {
      SplitLinesAt(text, width, k);
    }
  }
}
