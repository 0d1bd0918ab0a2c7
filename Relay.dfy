/** `bridgeHandler`: one finalized Crust block's events in, at most one
    Elrond ESDT transfer out. The block's events and the pool account's
    synced nonce are inputs; signing and sending are not modelled. */
module Relay {
  import opened Results
  import opened Numerals
  import opened CrustEvents
  import opened ElrondTransfer

  /** Why the handler stopped by throwing. */
  datatype Failure =
    | EventReadFailed(scan: ScanError)
    | AmountParseFailed(amount: AmountError)

  /** What one call of the handler ends with: no transfer, the one
      transaction it builds for the block, or a thrown error. */
  datatype Outcome = NoTransfer | Transfer(tx: Transaction) | Aborted(failure: Failure)

  method BridgeHandler(events: seq<Event>, poolNonce: nat) returns (o: Outcome)
    ensures Scan(events).Err? ==> o == Aborted(EventReadFailed(Scan(events).error))
    ensures Scan(events).Ok? && Scan(events).value.amount == "" ==> o == NoTransfer
    ensures Scan(events).Ok? && Scan(events).value.amount != "" &&
            !IsDecimal(StripWhitespace(Scan(events).value.amount)) ==>
              o == Aborted(AmountParseFailed(InvalidCharacter))
    ensures Scan(events).Ok? && Scan(events).value.amount != "" &&
            IsDecimal(StripWhitespace(Scan(events).value.amount)) ==>
              var d := Scan(events).value;
              var h := ElrondAmount(d.amount).value;
              o.Transfer? &&
              o.tx.chainID == "1" && o.tx.gasLimit == 500000 && o.tx.value == 0 &&
              o.tx.receiver == d.recipient && o.tx.nonce == poolNonce &&
              o.tx.data == TransferData(h) &&
              Split(o.tx.data, '@') == ["ESDTTransfer", ElrondCRUIdentifier, h] &&
              |h| % 2 == 0 && HexValue(h) == DecValue(StripWhitespace(d.amount)) * 1000000
  {
    var scanned := ScanEvents(events);
    if scanned.Err? {
      return Aborted(EventReadFailed(scanned.error));
    }
    var decoded := scanned.value;
    if decoded.amount != "" {
      var elrondSideAmount := ElrondAmount(decoded.amount);
      if elrondSideAmount.Err? {
        return Aborted(AmountParseFailed(elrondSideAmount.error));
      }
      return Transfer(BuildTransaction(decoded.recipient, elrondSideAmount.value, poolNonce));
    }
    return NoTransfer;
  }

  /** The worked example through the whole relay: the block decodes to
      amount 500000000000000 for addrX, the amount converts to the hex of
      500000000000000000000, and the data field splits into the transfer
      function, the token identifier and that hex. */
  lemma ScenarioRelay()
    ensures Scan(ExampleBlock).Ok?
    ensures var d := Scan(ExampleBlock).value;
            d.recipient == "addrX" &&
            ElrondAmount(d.amount) == Ok("1b1ae4d6e2ef500000") &&
            Split(TransferData(ElrondAmount(d.amount).value), '@') ==
              ["ESDTTransfer", "4352552d613566346161", "1b1ae4d6e2ef500000"]
  {
    ScenarioBlock();
    ScenarioAmount();
    TransferDataFields(ElrondAmount("500000000000000").value);
  }
}
