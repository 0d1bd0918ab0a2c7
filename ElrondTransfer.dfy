/** The Elrond side of the relay: rescaling the Crust amount, rendering it in
    hex, the ESDTTransfer data field and the transaction's fields. */
module ElrondTransfer {
  import opened Results
  import opened Numerals

  /** Appending these digits converts Crust minimal units into Elrond ones. */
  const MainnetToElrondUnit: string := "000000"
  const UnitFactor: nat := 1000000

  /** The ESDT token identifier, hex-encoded as the data field requires. */
  const ElrondCRUIdentifier: string := "4352552d613566346161"
  const ESDTTransferFunction: string := "ESDTTransfer"
  const DataSeparator: char := '@'

  const ElrondChainID: string := "1"
  const ElrondGasLimit: nat := 500000

  /** bn.js 5.2 and later throw 'Invalid character' on a character, left after
      white space is removed, that is not a digit of the base it parses, other
      than a leading '-'. */
  datatype AmountError = InvalidCharacter

  /** `new BN(crustSideAmount + "000000").toString(16)`, with one '0' put in
      front when the hex has odd length. bn.js first deletes all white space
      from the string, then parses the rest as decimal. */
  function ElrondAmount(crustAmount: string): (r: Result<string, AmountError>)
    ensures r.Ok? <==> IsDecimal(StripWhitespace(crustAmount))
    ensures r.Ok? ==>
              IsLowerHex(r.value) && |r.value| % 2 == 0 &&
              HexValue(r.value) == DecValue(StripWhitespace(crustAmount)) * UnitFactor
  {
    var raw := crustAmount + MainnetToElrondUnit;
    var digits := StripWhitespace(raw);
    var amountDigits := StripWhitespace(crustAmount);
    StripConcat(crustAmount, MainnetToElrondUnit);
    StripKeepsDecimal(MainnetToElrondUnit);
    assert digits == amountDigits + MainnetToElrondUnit;
    DecimalConcat(amountDigits, MainnetToElrondUnit);
    if !IsDecimal(digits) then Err(InvalidCharacter)
    else
      var hex := ToHex(DecValue(digits));
      ShiftByUnit(amountDigits);
      HexRoundTrip(DecValue(digits));
      PadToEvenValue(hex);
      Ok(PadToEven(hex))
  }

  /** `hex.length % 2 == 0 ? hex : '0' + hex` */
  function PadToEven(hex: string): string {
    if |hex| % 2 == 0 then hex else "0" + hex
  }

  lemma PadToEvenValue(hex: string)
    requires IsLowerHex(hex)
    ensures IsLowerHex(PadToEven(hex)) && |PadToEven(hex)| % 2 == 0
    ensures HexValue(PadToEven(hex)) == HexValue(hex)
  {
    var p := PadToEven(hex);
    if |hex| % 2 == 0 {
      assert p == hex;
    } else {
      assert p == "0" + hex;
      HexLeadingZero(hex);
      assert |p| == |hex| + 1;
    }
  }

  /** A concatenation is a decimal string exactly when both parts are. */
  lemma DecimalConcat(s: string, t: string)
    ensures IsDecimal(s + t) <==> IsDecimal(s) && IsDecimal(t)
  {
    assert forall i :: 0 <= i < |s| ==> (s + t)[i] == s[i];
    assert forall i :: 0 <= i < |t| ==> (s + t)[|s| + i] == t[i];
  }

  /** Appending "000000" multiplies the decimal value by 10^6. */
  lemma ShiftByUnit(s: string)
    requires IsDecimal(s)
    ensures IsDecimal(s + MainnetToElrondUnit)
    ensures DecValue(s + MainnetToElrondUnit) == DecValue(s) * UnitFactor
  {
    DecValueZeros(MainnetToElrondUnit);
    DecValueAppend(s, MainnetToElrondUnit);
    assert Pow10(6) == UnitFactor;
  }

  /** The amount hex is the minimal hex of the rescaled value, with a single
      '0' in front exactly when that minimal hex has odd length. */
  lemma ElrondAmountShape(crustAmount: string)
    requires IsDecimal(StripWhitespace(crustAmount))
    ensures var h := ToHex(DecValue(StripWhitespace(crustAmount)) * UnitFactor);
            ElrondAmount(crustAmount) == Ok(PadToEven(h)) &&
            (PadToEven(h) == "0" + h <==> |h| % 2 == 1)
  {
    var amountDigits := StripWhitespace(crustAmount);
    var digits := ShiftedDigits(crustAmount);
    assert ElrondAmount(crustAmount) == Ok(PadToEven(ToHex(DecValue(digits))));
    PadAddsZeroIffOdd(ToHex(DecValue(amountDigits) * UnitFactor));
  }

  /** The digits bn.js parses: the amount's digits followed by the six zeros. */
  lemma ShiftedDigits(crustAmount: string) returns (digits: string)
    requires IsDecimal(StripWhitespace(crustAmount))
    ensures digits == StripWhitespace(crustAmount + MainnetToElrondUnit)
    ensures IsDecimal(digits)
    ensures DecValue(digits) == DecValue(StripWhitespace(crustAmount)) * UnitFactor
  {
    digits := StripWhitespace(crustAmount + MainnetToElrondUnit);
    StripConcat(crustAmount, MainnetToElrondUnit);
    StripKeepsDecimal(MainnetToElrondUnit);
    ShiftByUnit(StripWhitespace(crustAmount));
  }

  lemma PadAddsZeroIffOdd(h: string)
    ensures PadToEven(h) == "0" + h <==> |h| % 2 == 1
  {
    assert |"0" + h| == |h| + 1;
  }

  /** Decoding the amount hex and undoing the shift gives back the Crust
      amount exactly: the conversion loses nothing. */
  lemma ElrondAmountInverse(crustAmount: string)
    requires IsDecimal(StripWhitespace(crustAmount))
    ensures var v := HexValue(ElrondAmount(crustAmount).value);
            v % UnitFactor == 0 && v / UnitFactor == DecValue(StripWhitespace(crustAmount))
  {
    var v := HexValue(ElrondAmount(crustAmount).value);
    assert v == DecValue(StripWhitespace(crustAmount)) * UnitFactor;
    UnitFactorDivides(DecValue(StripWhitespace(crustAmount)));
  }

  lemma UnitFactorDivides(a: nat)
    ensures (a * UnitFactor) % UnitFactor == 0 && (a * UnitFactor) / UnitFactor == a
  {
    assert a * UnitFactor == a * 1000000;
  }

  /** Two Crust amounts render to the same hex only if they have the same value. */
  lemma ElrondAmountInjective(a: string, b: string)
    requires IsDecimal(StripWhitespace(a)) && IsDecimal(StripWhitespace(b))
    requires ElrondAmount(a) == ElrondAmount(b)
    ensures DecValue(StripWhitespace(a)) == DecValue(StripWhitespace(b))
  {
    ElrondAmountInverse(a);
    ElrondAmountInverse(b);
  }

  // ---------- the data field ----------

  /** The template string `ESDTTransfer@${elrondCRUIdentifier}@${amount}`. */
  function TransferData(amountHex: string): string {
    ESDTTransferFunction + [DataSeparator] + ElrondCRUIdentifier + [DataSeparator] + amountHex
  }

  /** `s.split(sep)`: the pieces between separators, one more than there are
      separators. */
  function Split(s: string, sep: char): (parts: seq<string>)
    ensures |parts| >= 1
    decreases |s|
  {
    if s == [] then [""]
    else
      var rest := Split(s[1..], sep);
      if s[0] == sep then [""] + rest else [[s[0]] + rest[0]] + rest[1..]
  }

  /** `parts.join(sep)`. */
  function Join(parts: seq<string>, sep: char): string
    decreases |parts|
  {
    if parts == [] then ""
    else if |parts| == 1 then parts[0]
    else parts[0] + [sep] + Join(parts[1..], sep)
  }

  /** Splitting a piece that holds no separator, followed by the rest. */
  lemma {:induction false} SplitPiece(p: string, sep: char, rest: string)
    requires sep !in p
    ensures Split(p, sep) == [p]
    ensures Split(p + [sep] + rest, sep) == [p] + Split(rest, sep)
    decreases |p|
  {
    var s := p + [sep] + rest;
    if p == [] {
      assert s == [sep] + rest;
      assert s[1..] == rest;
    } else {
      assert s[0] == p[0];
      assert s[1..] == p[1..] + [sep] + rest;
      assert sep !in p[1..] by {
        assert forall i :: 0 <= i < |p[1..]| ==> p[1..][i] == p[i + 1];
      }
      SplitPiece(p[1..], sep, rest);
      assert [p[0]] + p[1..] == p;
    }
  }

  /** Join then split is the identity when no piece holds the separator. */
  lemma {:induction false} SplitJoin(parts: seq<string>, sep: char)
    requires |parts| >= 1
    requires forall i :: 0 <= i < |parts| ==> sep !in parts[i]
    ensures Split(Join(parts, sep), sep) == parts
    decreases |parts|
  {
    if |parts| == 1 {
      SplitPiece(parts[0], sep, "");
    } else {
      var tail := parts[1..];
      assert forall i :: 0 <= i < |tail| ==> tail[i] == parts[i + 1];
      SplitJoin(tail, sep);
      SplitPiece(parts[0], sep, Join(tail, sep));
      assert parts == [parts[0]] + tail;
    }
  }

  lemma HexHasNoSeparator(h: string)
    requires IsLowerHex(h)
    ensures DataSeparator !in h
  {
    assert forall i :: 0 <= i < |h| ==> IsHexDigit(h[i]) && h[i] != DataSeparator;
  }

  /** Splitting the data field on '@' gives back exactly the function name,
      the token identifier and the amount. */
  lemma TransferDataFields(amountHex: string)
    requires IsLowerHex(amountHex)
    ensures Split(TransferData(amountHex), DataSeparator) ==
            [ESDTTransferFunction, ElrondCRUIdentifier, amountHex]
  {
    var parts := [ESDTTransferFunction, ElrondCRUIdentifier, amountHex];
    HexHasNoSeparator(amountHex);
    assert Join(parts[2..], DataSeparator) == amountHex;
    assert Join(parts[1..], DataSeparator) == ElrondCRUIdentifier + [DataSeparator] + amountHex;
    assert Join(parts, DataSeparator) == TransferData(amountHex);
    assert DataSeparator !in ESDTTransferFunction;
    assert DataSeparator !in ElrondCRUIdentifier;
    SplitJoin(parts, DataSeparator);
  }

  // ---------- the transaction ----------

  /** The fields of the erdjs `Transaction` the handler builds (value in EGLD
      minimal units). */
  datatype Transaction = Transaction(
    chainID: string,
    nonce: nat,
    gasLimit: nat,
    receiver: string,
    value: nat,
    data: string)

  /** `new Transaction({...})` with the pool account's synced nonce. */
  function BuildTransaction(receiver: string, amountHex: string, poolNonce: nat): (tx: Transaction)
    requires IsLowerHex(amountHex)
    ensures Split(tx.data, DataSeparator) == [ESDTTransferFunction, ElrondCRUIdentifier, amountHex]
  {
    TransferDataFields(amountHex);
    Transaction(ElrondChainID, poolNonce, ElrondGasLimit, receiver, 0, TransferData(amountHex))
  }

  /** The worked example: 500000000000000 Crust units become the even-length
      hex of 500000000000000000000. */
  lemma ScenarioAmount()
    ensures ElrondAmount("500000000000000") == Ok("1b1ae4d6e2ef500000")
  {
    ScenarioDecimal();
    ScenarioAmountOf("500000000000000");
  }

  lemma ScenarioAmountOf(s: string)
    requires IsDecimal(s) && DecValue(s) == 500000000000000
    ensures ElrondAmount(s) == Ok("1b1ae4d6e2ef500000")
  {
    var n := DecValue(s) * UnitFactor;
    assert n == 500000000000000000000;
    ScenarioHexLow(n);
    ScenarioHexIsEven();
    StripKeepsDecimal(s);
    ElrondAmountShape(s);
  }

  lemma ScenarioHexIsEven()
    ensures PadToEven("1b1ae4d6e2ef500000") == "1b1ae4d6e2ef500000"
  {
    assert |"1b1ae4d6e2ef500000"| == 18;
  }

  lemma ScenarioDecimal()
    ensures IsDecimal("500000000000000") && DecValue("500000000000000") == 500000000000000
  {
    var zeros := "00000000000000";
    assert "5"[..0] == "";
    assert DecValue("5") == 5;
    assert Pow10(14) == 100000000000000;
    DecValueZeros(zeros);
    DecValueAppend("5", zeros);
    assert "5" + zeros == "500000000000000";
  }

  /** ToHex of the worked example, unrolled six digits at a time. */
  lemma ScenarioHexHigh()
    ensures ToHex(1776356) == "1b1ae4"
  {
    assert ToHex(1) == "1";
    assert ToHex(27) == "1b";
    assert ToHex(433) == "1b1";
    assert ToHex(6938) == "1b1a";
    assert ToHex(111022) == "1b1ae";
    assert ToHex(1776356) == "1b1ae4";
  }

  lemma ScenarioHexMid()
    ensures ToHex(29802322387695) == "1b1ae4d6e2ef"
  {
    ScenarioHexHigh();
    assert ToHex(28421709) == "1b1ae4d";
    assert ToHex(454747350) == "1b1ae4d6";
    assert ToHex(7275957614) == "1b1ae4d6e";
    assert ToHex(116415321826) == "1b1ae4d6e2";
    assert ToHex(1862645149230) == "1b1ae4d6e2e";
    assert ToHex(29802322387695) == "1b1ae4d6e2ef";
  }

  /** The literal is passed as a parameter so the verifier does not unroll
      `ToHex` on it at once; the lemma is about that one value. */
  lemma ScenarioHexLow(n: nat)
    requires n == 500000000000000000000
    ensures ToHex(n) == "1b1ae4d6e2ef500000"
  {
    ScenarioHexMid();
    assert ToHex(476837158203125) == "1b1ae4d6e2ef5";
    assert ToHex(7629394531250000) == "1b1ae4d6e2ef50";
    assert ToHex(122070312500000000) == "1b1ae4d6e2ef500";
    assert ToHex(1953125000000000000) == "1b1ae4d6e2ef5000";
    assert ToHex(31250000000000000000) == "1b1ae4d6e2ef50000";
    assert ToHex(500000000000000000000) == "1b1ae4d6e2ef500000";
  }

  /** A single unit: 10^6 = 0xf4240 has odd length and gets the pad. */
  lemma ScenarioPadded()
    ensures ElrondAmount("1") == Ok("0f4240")
  {
    assert "1"[..0] == "";
    assert DecValue("1") == 1;
    ScenarioPaddedOf("1");
  }

  lemma ScenarioPaddedOf(s: string)
    requires IsDecimal(s) && DecValue(s) == 1
    ensures ElrondAmount(s) == Ok("0f4240")
  {
    StripKeepsDecimal(s);
    ElrondAmountShape(s);
    var n := DecValue(s) * UnitFactor;
    assert n == 1000000;
    assert ToHex(1000000) == "f4240";
    assert |"f4240"| == 5;
    assert PadToEven("f4240") == "0f4240";
  }

  /** A letter is not white space, so it stays and bn.js throws. */
  lemma ScenarioRejected()
    ensures ElrondAmount("5x") == Err(InvalidCharacter)
  {
    StripDecimalIff("5x");
    assert !IsJsWhitespace("5x"[1]) && !IsDecDigit("5x"[1]);
  }

  /** bn.js deletes white space before parsing: "5 " becomes 5 * 10^6 =
      0x4c4b40, not an error. */
  lemma ScenarioWhitespace()
    ensures ElrondAmount("5 ") == Ok("4c4b40")
  {
    assert "5 "[1..] == " ";
    assert " "[1..] == "";
    assert StripWhitespace("5 ") == "5";
    assert "5"[..0] == "";
    assert DecValue("5") == 5;
    ScenarioWhitespaceOf("5 ");
  }

  lemma ScenarioWhitespaceOf(s: string)
    requires IsDecimal(StripWhitespace(s)) && DecValue(StripWhitespace(s)) == 5
    ensures ElrondAmount(s) == Ok("4c4b40")
  {
    var n := DecValue(StripWhitespace(s)) * UnitFactor;
    assert n == 5000000;
    ScenarioWhitespaceHex(n);
    ElrondAmountShape(s);
  }

  /** The literal is passed as a parameter so the verifier does not unroll
      `ToHex` on it at once; the lemma is about that one value. */
  lemma ScenarioWhitespaceHex(n: nat)
    requires n == 5000000
    ensures ToHex(n) == "4c4b40" && PadToEven(ToHex(n)) == "4c4b40"
  {
    assert ToHex(5000000) == "4c4b40";
    assert |"4c4b40"| == 6;
  }
}
