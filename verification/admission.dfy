/**
 * `Api::checkAPI` and `Api::hasBits`: the admission check a key must pass
 * before it is stored. The remote `APIKeyInfo` call is a parameter, a
 * function from the (cast keyID, trimmed vCode) it is called with to the
 * reply, so that a result that does not depend on it is a path on which
 * the call is never made.
 */
module AccessGate {
  import opened Php

  /** The reply of `APIKeyInfo`: the key's access mask, or the exception's code and message. */
  datatype KeyInfoReply = KeyInfo(accessMask: int) | KeyInfoError(code: int, message: string)

  /** The access-mask bit of the KillLog call. */
  const KilllogBit := 256

  /** The outcomes of `checkAPI`. */
  datatype Verdict =
    | NoKey
    | InvalidKey
    | Swapped
    | RemoteFailure(code: int, message: string)
    | NoKilllog
    | Success

  /** The string `checkAPI` returns for each verdict. */
  function Text(v: Verdict): string {
    match v
    case NoKey => "Error, no keyID and/or vCode"
    case InvalidKey => "Invalid keyID.  Did you get the keyID and vCode mixed up?"
    case Swapped => "Error, you might have mistaken keyid for the vcode"
    case RemoteFailure(code, message) => "Error: " + DecimalString(code) + " Message: " + message
    case NoKilllog => "Error, key does not have access to killlog, please modify key to add killlog access"
    case Success => "success"
  }

  /** Callers test the result against "success", which no refusal produces. */
  lemma TextSuccessOnly(v: Verdict)
    ensures Text(v) == "success" <==> v == Success
  {
    match v
    case RemoteFailure(code, message) => RemoteTextIsRefusal(code, message);
    case Success =>
    case _ => FixedTextsAreRefusals();
  }

  lemma FixedTextsAreRefusals()
    ensures Text(NoKey) != "success" && Text(InvalidKey) != "success"
    ensures Text(Swapped) != "success" && Text(NoKilllog) != "success"
  {
  }

  lemma RemoteTextIsRefusal(code: int, message: string)
    ensures Text(RemoteFailure(code, message)) != "success"
  {
    assert Text(RemoteFailure(code, message))[0] == 'E';
  }

  /** A remote failure passes the service's message through, at the end of the text. */
  lemma TextCarriesMessage(code: int, message: string)
    ensures var t := Text(RemoteFailure(code, message));
      |t| >= |message| && t[|t| - |message|..] == message
  {
    var head := "Error: " + DecimalString(code) + " Message: ";
    assert Text(RemoteFailure(code, message)) == head + message;
  }

  /**
   * The KillLog test on an access mask: bit 8 of the mask's two's-complement
   * representation is set (Dafny's `/` by a positive divisor rounds down, so
   * this holds for negative masks too).
   */
  function HasBits(accessMask: int): (r: bool)
    ensures r <==> KilllogBit <= accessMask % (2 * KilllogBit)
  {
    (accessMask / KilllogBit) % 2 == 1
  }

  /** Only bit 8 decides: the bits above it and the eight below it are ignored. */
  lemma HasBitsOnlyBit8(high: int, bit: int, low: int)
    requires 0 <= bit <= 1 && 0 <= low < KilllogBit
    ensures HasBits(high * 512 + bit * KilllogBit + low) <==> bit == 1
  {
    var m := high * 512 + bit * KilllogBit + low;
    assert m % 512 == bit * KilllogBit + low;
  }

  /** The inputs that reach the remote call: both non-blank and a keyID that casts to non-zero. */
  predicate WellFormed(keyID: string, vCode: string) {
    Trim(keyID) != [] && Trim(vCode) != [] && IntCast(Trim(keyID)) != 0
  }

  /** The reply of the remote call `checkAPI` makes for these inputs. */
  function Reply(keyID: string, vCode: string, remote: (int, string) -> KeyInfoReply): KeyInfoReply {
    remote(IntCast(Trim(keyID)), Trim(vCode))
  }

  /**
   * The swap test as written: the decimal length of the keyID after its
   * `(int)` cast exceeds 20. A 64-bit integer prints in at most 20
   * characters, so the test never passes.
   */
  function SwapTestAsWritten(id: int): (hint: bool)
    requires IntMin <= id <= IntMax
    ensures !hint
  {
    DecimalLengthBound(id);
    |DecimalString(id)| > 20
  }

  /**
   * `Api::checkAPI` as written. After trimming, a blank keyID or vCode is
   * rejected, then a keyID whose `(int)` cast is 0; otherwise the remote
   * call is made with the cast keyID. On a remote error the swap hint is
   * chosen only if `SwapTestAsWritten` passes, which it never does.
   */
  function CheckApi(keyID: string, vCode: string, remote: (int, string) -> KeyInfoReply): (r: Verdict)
    ensures Trim(keyID) == [] || Trim(vCode) == [] ==> r == NoKey
    ensures Trim(keyID) != [] && Trim(vCode) != [] && IntCast(Trim(keyID)) == 0 ==> r == InvalidKey
    ensures r == Success <==>
      WellFormed(keyID, vCode) && Reply(keyID, vCode, remote).KeyInfo? && HasBits(Reply(keyID, vCode, remote).accessMask)
    ensures r == NoKilllog <==>
      WellFormed(keyID, vCode) && Reply(keyID, vCode, remote).KeyInfo? && !HasBits(Reply(keyID, vCode, remote).accessMask)
    ensures WellFormed(keyID, vCode) && Reply(keyID, vCode, remote).KeyInfoError? ==>
      r == RemoteFailure(Reply(keyID, vCode, remote).code, Reply(keyID, vCode, remote).message)
    ensures r != Swapped
  {
    var k := Trim(keyID);
    var v := Trim(vCode);
    if k == [] || v == [] then NoKey
    else
      var id := IntCast(k);
      if id == 0 then InvalidKey
      else
        match remote(id, v)
        case KeyInfoError(code, message) =>
          if SwapTestAsWritten(id) then Swapped else RemoteFailure(code, message)
        case KeyInfo(mask) =>
          if !HasBits(mask) then NoKilllog else Success
  }

  /**
   * The blank and invalid-keyID rejections are decided before the remote
   * call: the result is the same whatever the remote service would reply.
   */
  lemma MalformedInputMakesNoRemoteCall(keyID: string, vCode: string, remote: (int, string) -> KeyInfoReply, other: (int, string) -> KeyInfoReply)
    requires !WellFormed(keyID, vCode)
    ensures CheckApi(keyID, vCode, remote) == CheckApi(keyID, vCode, other)
    ensures CheckApi(keyID, vCode, remote) == NoKey || CheckApi(keyID, vCode, remote) == InvalidKey
  {
  }

  /** Worked case: a blank keyID or vCode is refused whatever the service would say. */
  lemma BlankFieldsRefused(remote: (int, string) -> KeyInfoReply)
    ensures CheckApi("", "x", remote) == NoKey
    ensures CheckApi("100", " ", remote) == NoKey
  {
    BlankTrims();
  }

  /** The empty string and a lone space both trim to nothing. */
  lemma BlankTrims()
    ensures Trim("") == [] && Trim(" ") == []
  {
    assert AllTrimSpace(" ");
  }

  /** Worked case: the keyID "abc" casts to 0 and is refused before the remote call. */
  lemma LetterKeyRefused(remote: (int, string) -> KeyInfoReply)
    ensures CheckApi("abc", "x", remote) == InvalidKey
  {
    TrimNonBlank("x");
    TrimNonBlank("abc");
    IntCastNoDigits("abc");
  }

  /** The inputs "100" and "x" are already trimmed, and "100" casts to 100. */
  lemma KeyHundredCasts()
    ensures Trim("100") == "100" && Trim("x") == "x" && IntCast("100") == 100
  {
    TrimNonBlank("x");
    TrimNonBlank("100");
    assert "100" == "100" + [];
    assert Value("100") == 100 by {
      assert ValueOf("100", 0, 1) == 1;
      assert ValueOf("100", 0, 2) == 10;
    }
    IntCastDigitPrefix("100", []);
  }

  /** Worked case: key 100 is accepted with access mask 256 and refused with mask 0. */
  lemma KeyHundredByMask(remote: (int, string) -> KeyInfoReply)
    ensures remote(100, "x") == KeyInfo(256) ==> CheckApi("100", "x", remote) == Success
    ensures remote(100, "x") == KeyInfo(0) ==> CheckApi("100", "x", remote) == NoKilllog
  {
    KeyHundredCasts();
    assert WellFormed("100", "x");
    assert Reply("100", "x", remote) == remote(100, "x");
  }

  /**
   * `checkAPI` with the swap test applied to the trimmed keyID as the user
   * typed it, which is what the hint is evidently meant to look at (a
   * 64-character vCode pasted into the keyID field). The length is counted
   * in characters; PHP's `strlen` counts bytes, and the two agree for
   * ASCII keyIDs.
   */
  function CheckApiIntended(keyID: string, vCode: string, remote: (int, string) -> KeyInfoReply): (r: Verdict)
    ensures r == Swapped <==>
      WellFormed(keyID, vCode) && Reply(keyID, vCode, remote).KeyInfoError? && |Trim(keyID)| > 20
    ensures r.RemoteFailure? <==>
      WellFormed(keyID, vCode) && Reply(keyID, vCode, remote).KeyInfoError? && |Trim(keyID)| <= 20
    ensures WellFormed(keyID, vCode) && Reply(keyID, vCode, remote).KeyInfoError? && |Trim(keyID)| <= 20 ==>
      r == RemoteFailure(Reply(keyID, vCode, remote).code, Reply(keyID, vCode, remote).message)
    ensures !r.RemoteFailure? && !r.Swapped? ==> r == CheckApi(keyID, vCode, remote)
  {
    var k := Trim(keyID);
    var v := Trim(vCode);
    if k == [] || v == [] then NoKey
    else
      var id := IntCast(k);
      if id == 0 then InvalidKey
      else
        match remote(id, v)
        case KeyInfoError(code, message) =>
          if |k| > 20 then Swapped else RemoteFailure(code, message)
        case KeyInfo(mask) =>
          if !HasBits(mask) then NoKilllog else Success
  }

  /**
   * Where the two differ: a well-formed keyID longer than 20 characters
   * that the remote service rejects gets the swap hint only from the
   * corrected check; the code as written reports the remote error.
   */
  lemma SwapHintDiscrepancy(keyID: string, vCode: string, remote: (int, string) -> KeyInfoReply)
    requires WellFormed(keyID, vCode) && Reply(keyID, vCode, remote).KeyInfoError? && |Trim(keyID)| > 20
    ensures CheckApiIntended(keyID, vCode, remote) == Swapped
    ensures CheckApi(keyID, vCode, remote)
      == RemoteFailure(Reply(keyID, vCode, remote).code, Reply(keyID, vCode, remote).message)
  {
  }

  /**
   * A concrete instance: the 21-character keyID "9xxxxxxxxxxxxxxxxxxxx"
   * (which casts to 9) with vCode "x", rejected remotely with code 203.
   */
  lemma SwapHintCounterexample()
    ensures var keyID := "9" + seq(20, _ => 'x');
      var remote := (id: int, v: string) => KeyInfoError(203, "Authentication failure");
      && CheckApiIntended(keyID, "x", remote) == Swapped
      && CheckApi(keyID, "x", remote) == RemoteFailure(203, "Authentication failure")
  {
    var keyID := "9" + seq(20, _ => 'x');
    var remote := (id: int, v: string) => KeyInfoError(203, "Authentication failure");
    TrimNonBlank(keyID);
    TrimNonBlank("x");
    IntCastDigitPrefix("9", seq(20, _ => 'x'));
    SwapHintDiscrepancy(keyID, "x", remote);
  }
}
