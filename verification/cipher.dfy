/**
  The printable-ASCII one-time pad of encrypt_decrypt.py.

  Encryption adds the pad to the message position by position, modulo the 95
  printable characters, with an extra +1; decryption subtracts the pad and an
  extra 1. Both offsets are kept exactly as written; `RoundTrip` shows that they
  cancel. Every `ValueError` the source raises is an `Err` carrying the reason
  that its message text names.
 */
module Cipher {
  import opened Printable

  /** Why a `ValueError` was raised: one reason per error message of the source. */
  datatype Reason =
    | PadTooShort            // the pad is shorter than the message
    | NonPrintable(ch: int)  // an input holds a character outside the alphabet
    | InvalidMode            // the mode is neither encryption nor decryption

  /** A normal return or a raised `ValueError`. */
  datatype Result<T> = Ok(value: T) | Err(reason: Reason)

  /**
    Validation of one input: returns normally iff every character is printable;
    otherwise raises naming the FIRST offending character.
   */
  function ValidatePrintable(s: seq<int>): (r: Result<()>)
    ensures r.Ok? <==> AllPrintable(s)
    ensures r.Err? ==> r.reason.NonPrintable?
    ensures r.Err? ==>
      exists i :: 0 <= i < |s| && s[i] == r.reason.ch && !IsPrintable(s[i]) && AllPrintable(s[..i])
  {
    if |s| == 0 then Ok(())
    else if !IsPrintable(s[0]) then
      assert s[..0] == [];
      Err(NonPrintable(s[0]))
    else
      var r := ValidatePrintable(s[1..]);
      if r.Err? then
        var i :| 0 <= i < |s[1..]| && s[1..][i] == r.reason.ch && !IsPrintable(s[1..][i]) && AllPrintable(s[1..][..i]);
        assert s[..i + 1] == [s[0]] + s[1..][..i];
        r
      else
        r
  }

  /** One encrypted character: the pad's index plus the message's index plus one, modulo 95. */
  function AddChar(m: int, o: int): (c: int)
    ensures IsPrintable(c)
  {
    ((m - StartPrintable + 1 + o - StartPrintable) % PrintableLength) + StartPrintable
  }

  /** One decrypted character: the message's index minus the pad's index minus one, modulo 95. */
  function SubChar(m: int, o: int): (c: int)
    ensures IsPrintable(c)
  {
    ((m - StartPrintable - (o - StartPrintable) - 1) % PrintableLength) + StartPrintable
  }

  /** Encryption of message and pad paired position by position; stops at the shorter of the two. */
  function AddStrings(message: seq<int>, otp: seq<int>): (r: seq<int>)
    ensures |r| == Min(|message|, |otp|)
    ensures AllPrintable(r)
    ensures forall i :: 0 <= i < |r| ==> r[i] == AddChar(message[i], otp[i])
  {
    if |message| == 0 || |otp| == 0 then []
    else [AddChar(message[0], otp[0])] + AddStrings(message[1..], otp[1..])
  }

  /** Decryption of text and pad paired position by position; stops at the shorter of the two. */
  function SubtractStrings(message: seq<int>, otp: seq<int>): (r: seq<int>)
    ensures |r| == Min(|message|, |otp|)
    ensures AllPrintable(r)
    ensures forall i :: 0 <= i < |r| ==> r[i] == SubChar(message[i], otp[i])
  {
    if |message| == 0 || |otp| == 0 then []
    else [SubChar(message[0], otp[0])] + SubtractStrings(message[1..], otp[1..])
  }

  /**
    The dispatcher. Its checks run in a fixed order: pad length, then the
    message's characters, then the pad's characters, and the mode last.
   */
  function OneTimePad(message: seq<int>, otp: seq<int>, mode: string): (r: Result<seq<int>>)
    ensures r == Err(PadTooShort) <==> |otp| < |message|
    ensures r.Err? && r.reason.NonPrintable? <==>
      |otp| >= |message| && !(AllPrintable(message) && AllPrintable(otp))
    ensures r.Err? && r.reason.NonPrintable? && !AllPrintable(message) ==>
      r.reason == ValidatePrintable(message).reason
    ensures r.Err? && r.reason.NonPrintable? && AllPrintable(message) ==>
      r.reason == ValidatePrintable(otp).reason
    ensures r == Err(InvalidMode) <==>
      |otp| >= |message| && AllPrintable(message) && AllPrintable(otp) &&
      mode != "encrypt" && mode != "decrypt"
    ensures r.Ok? ==> |r.value| == |message| && AllPrintable(r.value)
    ensures r.Ok? && mode == "encrypt" ==> r.value == AddStrings(message, otp)
    ensures r.Ok? && mode == "decrypt" ==> r.value == SubtractStrings(message, otp)
  {
    if |otp| < |message| then Err(PadTooShort)
    else
      var checkMessage := ValidatePrintable(message);
      if checkMessage.Err? then Err(checkMessage.reason)
      else
        var checkOtp := ValidatePrintable(otp);
        if checkOtp.Err? then Err(checkOtp.reason)
        else if mode == "encrypt" then Ok(AddStrings(message, otp))
        else if mode == "decrypt" then Ok(SubtractStrings(message, otp))
        else Err(InvalidMode)
  }

  /** Decrypting an encrypted printable character with the same pad character gives it back. */
  lemma CharRoundTrip(m: int, o: int)
    requires IsPrintable(m)
    ensures SubChar(AddChar(m, o), o) == m
  {
  }

  /** Encrypting a decrypted printable character with the same pad character gives it back. */
  lemma CharRoundTripConverse(c: int, o: int)
    requires IsPrintable(c)
    ensures AddChar(SubChar(c, o), o) == c
  {
  }

  /**
    The +1 of encryption and the -1 of decryption cancel: decrypting the
    encryption of a printable message with the same pad gives the message back.
    The pad may hold any code points; it only has to be long enough.
   */
  lemma RoundTrip(message: seq<int>, otp: seq<int>)
    requires AllPrintable(message)
    requires |otp| >= |message|
    ensures SubtractStrings(AddStrings(message, otp), otp) == message
  {
    var r := SubtractStrings(AddStrings(message, otp), otp);
    forall i | 0 <= i < |message|
      ensures r[i] == message[i]
    {
      CharRoundTrip(message[i], otp[i]);
    }
  }

  /** The converse round trip: encrypting a decrypted printable text gives it back. */
  lemma RoundTripConverse(cipher: seq<int>, otp: seq<int>)
    requires AllPrintable(cipher)
    requires |otp| >= |cipher|
    ensures AddStrings(SubtractStrings(cipher, otp), otp) == cipher
  {
    var r := AddStrings(SubtractStrings(cipher, otp), otp);
    forall i | 0 <= i < |cipher|
      ensures r[i] == cipher[i]
    {
      CharRoundTripConverse(cipher[i], otp[i]);
    }
  }

  /** Pad characters beyond the message's length never affect either direction. */
  lemma PadTailIgnored(message: seq<int>, otp1: seq<int>, otp2: seq<int>)
    requires |otp1| >= |message| && |otp2| >= |message|
    requires otp1[..|message|] == otp2[..|message|]
    ensures AddStrings(message, otp1) == AddStrings(message, otp2)
    ensures SubtractStrings(message, otp1) == SubtractStrings(message, otp2)
  {
    forall i | 0 <= i < |message|
      ensures otp1[i] == otp2[i]
    {
      assert otp1[..|message|][i] == otp2[..|message|][i];
    }
  }

  /** A space encrypted with a space is `!`: the +1 offset is visible. */
  lemma SpaceEncryptsToBang()
    ensures OneTimePad([' ' as int], [' ' as int], "encrypt") == Ok(['!' as int])
  {
    var r := AddStrings([' ' as int], [' ' as int]);
    assert r[0] == AddChar(' ' as int, ' ' as int) == '!' as int;
    assert r == ['!' as int];
  }

  /**
    The pad sheet documents encryption as the sum of the two indices modulo 95,
    with the space at index 0; the code's encryption is that rule moved one
    place further along the alphabet.
   */
  lemma EncryptIsSheetRulePlusOne(m: int, o: int)
    requires IsPrintable(m) && IsPrintable(o)
    ensures AddChar(m, o) - StartPrintable ==
      (SheetEncrypt(m, o) - StartPrintable + 1) % PrintableLength
    ensures AddChar(m, o) != SheetEncrypt(m, o)
  {
  }

  /**
    The encryption rule printed on the pad sheet: the sum of the message's and
    the pad's 0-based indices, modulo 95. A pad character at index 0 (the
    space) leaves the message character unchanged.
   */
  function SheetEncrypt(m: int, o: int): (c: int)
    ensures IsPrintable(c)
    ensures IsPrintable(m) && o == StartPrintable ==> c == m
  {
    ((m - StartPrintable) + (o - StartPrintable)) % PrintableLength + StartPrintable
  }

  /**
    A message encrypted by hand with the sheet's rule comes back from the
    program's decryption one place earlier in the alphabet, so never as written.
   */
  lemma SheetCipherDecryptsOneOff(m: int, o: int)
    requires IsPrintable(m) && IsPrintable(o)
    ensures SubChar(SheetEncrypt(m, o), o) == (m - StartPrintable - 1) % PrintableLength + StartPrintable
    ensures SubChar(SheetEncrypt(m, o), o) != m
  {
    var a := m - StartPrintable;
    var b := o - StartPrintable;
    var q := (a + b) / PrintableLength;
    assert (a + b) % PrintableLength - b - 1 == (a - 1) + (-q) * PrintableLength;
    ModMultiple(a - 1, -q);
  }

  /** Adding a multiple of 95 does not change a residue. */
  lemma {:induction false} ModMultiple(x: int, q: int)
    ensures (x + q * PrintableLength) % PrintableLength == x % PrintableLength
    decreases if q < 0 then -q else q
  {
    if q > 0 {
      ModMultiple(x, q - 1);
      assert x + q * PrintableLength == (x + (q - 1) * PrintableLength) + PrintableLength;
    } else if q < 0 {
      ModMultiple(x, q + 1);
      assert x + q * PrintableLength == (x + (q + 1) * PrintableLength) - PrintableLength;
    }
  }

  /** Through the dispatcher: decrypting what `encrypt` returned recovers the message. */
  lemma EncryptThenDecrypt(message: seq<int>, otp: seq<int>)
    requires OneTimePad(message, otp, "encrypt").Ok?
    ensures OneTimePad(OneTimePad(message, otp, "encrypt").value, otp, "decrypt") == Ok(message)
  {
    RoundTrip(message, otp);
  }

  /** Through the dispatcher: encrypting what `decrypt` returned recovers the ciphertext. */
  lemma DecryptThenEncrypt(cipher: seq<int>, otp: seq<int>)
    requires OneTimePad(cipher, otp, "decrypt").Ok?
    ensures OneTimePad(OneTimePad(cipher, otp, "decrypt").value, otp, "encrypt") == Ok(cipher)
  {
    RoundTripConverse(cipher, otp);
  }
}
