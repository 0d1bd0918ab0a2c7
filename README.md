# Crust → Elrond bridge relay, modelled in Dafny

The relay watches finalized blocks on the Crust chain. For each block,
`bridgeHandler` scans the block's event records for a
`chainBridge.FungibleTransfer` event whose first datum reads `"100"`. It reads
the amount, the recipient and the nonce by position. It then builds one
Elrond transaction that moves the converted amount of the CRU ESDT token from
the pool account to the recipient.

This project models that handler. It has five modules:

- `Results` (Results.dfy): the `Result` datatype used for thrown errors.
- `Numerals` (Numerals.dfy): the bn.js arithmetic the handler relies on. This
  is the deletion of white space before parsing, the value of a decimal digit
  string, the minimal lower-case hex rendering
  `toString(16)`, and the value of a hex string. These are mathematical
  functions on `nat`.
- `CrustEvents` (CrustEvents.dfy): event records as
  `{section, methodName, data}`, each datum holding its `toHuman()` and
  `toString()` renderings. The module holds the selection test and the
  positional decode. `ScanEvents` is the handler's `for` loop: a method that
  reassigns the three locals. It is proved equal to the fold `Scan`, and
  `Scan` is characterised by independent lemmas: the last match wins, no match
  leaves the initial `''`, and the first short data tuple throws.
- `ElrondTransfer` (ElrondTransfer.dfy): the amount shift by `"000000"`, the
  hex rendering with its even-length pad, the
  `ESDTTransfer@<identifier>@<amount>` data field, and the transaction's fields.
- `Relay` (Relay.dfy): `BridgeHandler` puts the pieces together and returns
  one of three outcomes: no transfer, the single transaction built for the
  block, or the error the handler throws.

Inputs the source obtains over the network are parameters here. The block's
event list stands for the result of `getBlockHash` and `system.events.at`. The
pool account's nonce stands for the result of `Account.sync`.

The model follows the JavaScript semantics of the handler in three places:

- Reading a data field past the end of the event's tuple calls `toHuman()`
  or `toString()` on `undefined`, which throws and ends the whole handler.
  The model reports this as `MalformedEvent(i)` for the first such event. Because `&&`
  short-circuits, `data[0]` is only read once the qualified name has matched.
- The handler builds a transaction when `crustSideAmount !== ''`, not when an
  event matched. If the last matching event carries an empty amount text, no
  transaction is built, even though earlier events matched.
- bn.js first deletes every white-space character (JavaScript's `\s`) from
  the string, so `"5 "` becomes `"5000000"` and converts to `4c4b40`. Then
  bn.js 5.2 and later reject any remaining character that is not a decimal
  digit, other than a leading '-', with an "Invalid character" error. The
  model follows bn.js 5.2 and returns `Err(InvalidCharacter)` in that case.
  It also rejects a leading '-' (see "## Left out").

The decoded `eventNonce` goes into the model's decoded state, as in the
source. It is never used in the transaction, which takes its nonce from the
pool account.

## Model

| member | source | states |
|---|---|---|
| `CrustEvents.ScanEvents` | src/index.ts:23-43 | the loop's final locals, or the thrown error, equal the fold `Scan` over the block's events |
| `CrustEvents.ScanErrorSticks` | src/index.ts:32-43 | once reading an event's data throws, no later event changes the outcome |
| `CrustEvents.QualifiedNameMatches` | src/index.ts:11 | `section + "." + method == "chainBridge.FungibleTransfer"` holds exactly for section `chainBridge` and method `FungibleTransfer` |
| `CrustEvents.SelectionExact` | src/index.ts:35-39 | an event is selected iff it is chainBridge.FungibleTransfer, `data[0]` reads "100" and the tuple has the five fields read; it throws iff the name matches and `data[0]`, or a later field of a "100" event, is missing |
| `CrustEvents.SkipLeavesStateUnchanged` | src/index.ts:35-36 | an event that is not selected leaves amount, recipient and nonce as they were |
| `CrustEvents.ScanFailsAtFirstMalformed` | src/index.ts:36-39 | the scan throws iff some event is malformed, and the error names the first malformed one |
| `CrustEvents.ScanWithoutMatch` | src/index.ts:23-25 | with no selected and no malformed event, the locals keep their initial `''` |
| `CrustEvents.ScanLastMatchWins` | src/index.ts:32-43 | with no malformed event, the result holds amount `data[3]`, recipient `data[4]` and nonce `data[1]` of the last selected event; earlier matches are overwritten |
| `CrustEvents.ScenarioBlock` | src/index.ts:32-43 | a block with one transfer (nonce 7, amount 500000000000000, recipient addrX) between unrelated events decodes to those fields |
| `Numerals.DecValueAppend` | src/index.ts:48 | appending digits t to s gives value `value(s) * 10^|t| + value(t)` |
| `Numerals.DecValueZeros` | src/index.ts:14 | a string of '0' characters is decimal with value zero |
| `Numerals.ToHex` | src/index.ts:49 | the base-16 rendering is made of lower-case hex digits and is never empty |
| `Numerals.HexRoundTrip` | src/index.ts:49 | reading the hex rendering back gives the original value |
| `Numerals.ToHexIsMinimal` | src/index.ts:49 | the rendering has no leading zero except for "0", which is produced exactly for zero |
| `Numerals.MinimalHexUnique` | src/index.ts:49 | every minimal hex string is the rendering of its own value, so the rendering is the unique minimal one |
| `Numerals.HexLeadingZero` | src/index.ts:50 | prefixing '0' keeps a hex string hex and keeps its value |
| `Numerals.StripWhitespace` | src/index.ts:49 | the string bn.js parses contains no JavaScript white space and is no longer than its input |
| `Numerals.StripConcat` | src/index.ts:48-49 | deleting white space from `s + t` is deleting it from s and from t |
| `Numerals.StripChar` | src/index.ts:49 | on one character, the deletion keeps it unless it is JavaScript white space, which it drops; with `StripConcat` this fixes the result on every string |
| `Numerals.StripDecimalIff` | src/index.ts:49 | the stripped amount is decimal exactly when every character that is not white space is a decimal digit |
| `Numerals.StripKeepsDecimal` | src/index.ts:49 | a decimal digit string is left as it is by the white-space removal |
| `ElrondTransfer.ElrondAmount` | src/index.ts:48-50 | the conversion succeeds iff the amount text, with white space deleted, is all decimal digits; then the result is lower-case hex of even length whose value is those digits' value times 10^6 |
| `ElrondTransfer.PadToEvenValue` | src/index.ts:50 | the conditional pad gives even length and keeps the hex value |
| `ElrondTransfer.DecimalConcat` | src/index.ts:48 | `s + t` is a decimal string iff both s and t are |
| `ElrondTransfer.ShiftByUnit` | src/index.ts:14 | appending "000000" multiplies the decimal value by 10^6 |
| `ElrondTransfer.ElrondAmountShape` | src/index.ts:49-50 | the amount is the minimal hex of the shifted value, with one '0' added exactly when the minimal hex has odd length |
| `ElrondTransfer.ElrondAmountInverse` | src/index.ts:48-50 | the amount's hex value divided by 10^6 gives back the Crust amount, with no remainder |
| `ElrondTransfer.ElrondAmountInjective` | src/index.ts:48-50 | two Crust amounts that convert to the same hex have the same value |
| `ElrondTransfer.SplitJoin` | src/index.ts:60 | joining parts that hold no separator, then splitting, gives back the parts |
| `ElrondTransfer.HexHasNoSeparator` | src/index.ts:49-50 | a hex string contains no '@' |
| `ElrondTransfer.TransferDataFields` | src/index.ts:60 | splitting `ESDTTransfer@4352552d613566346161@<amount>` on '@' gives exactly those three parts |
| `ElrondTransfer.BuildTransaction` | src/index.ts:54-61 | the transaction's data field splits on '@' into function name, token identifier and amount |
| `ElrondTransfer.ScenarioAmount` | src/index.ts:48-50 | "500000000000000" converts to "1b1ae4d6e2ef500000", the even-length hex of 500000000000000000000 |
| `ElrondTransfer.ScenarioPadded` | src/index.ts:50 | "1" converts to "0f4240": 10^6 is "f4240", whose odd length gets the pad |
| `ElrondTransfer.ScenarioRejected` | src/index.ts:49 | "5x" fails with the 'Invalid character' error, because a letter is not white space and is not a digit |
| `ElrondTransfer.ScenarioWhitespace` | src/index.ts:48-50 | "5 " converts to "4c4b40", the hex of 5 * 10^6, because bn.js deletes the space |
| `Relay.ScenarioRelay` | src/index.ts:32-60 | the example block decodes to recipient addrX and amount 500000000000000, which converts to "1b1ae4d6e2ef500000", and the data field splits into "ESDTTransfer", the identifier and that hex |
| `Relay.BridgeHandler` | src/index.ts:22-61 | a thrown scan error aborts the handler; an empty amount builds nothing; an amount that is not decimal once white space is deleted aborts; otherwise one transaction with chain id "1", gas limit 500000, value 0, the decoded recipient, the pool nonce and data `ESDTTransfer@<id>@<hex>`, where the hex has even length and the value of the amount's digits times 10^6 |

## Left out

- The network inputs (src/index.ts:28-30, 52) are parameters. `getBlockHash`
  and `system.events.at` become the event list, and `Account.sync` becomes the
  nonce. None of these calls is modelled.
- Key derivation from the mnemonic, `UserSigner`, `sign`,
  `NetworkConfig.sync` and `tx.send`, along with its swallowed error
  (src/index.ts:17-20, 47, 63-77). These are foreign library calls and network
  submission.
- `new Address(elrondReceipt)`: erdjs parses the recipient (bech32 or hex)
  and may throw. This is not modelled, and the receiver stays the decoded
  string.
- `toHuman()` may give a value that is not a string, or `undefined`, which
  `?.toString()` turns into `undefined`. Each datum is modelled with two
  string renderings, so those cases are absent.
- ElrondTransfer.ElrondAmount: bn.js also accepts a leading '-' and parses it
  as a negative number. The model treats '-' like any other non-digit and
  returns an error. The Crust `U256` amount's `toString()` never has a sign.
  The model also follows the 'Invalid character' check of bn.js 5.2 and later.
  bn.js 4.x computes some value without throwing instead, and that value is
  not modelled. The package manifest that would pin the bn.js version is not
  part of this model.
- Relay.BridgeHandler: its abort on a non-decimal amount has the same limits
  as `ElrondTransfer.ElrondAmount`: a leading '-' aborts here but not in
  bn.js, and the abort follows bn.js 5.2.
- The transaction fields `Balance.egld(0)`, `GasLimit` and
  `ChainID` are erdjs wrapper objects. Here they are plain values 0, 500000
  and "1".
- Logging through the winston logger (src/pseudo_db.ts) and every
  `pseudoDB.info` call. These are log output only.
- `main` and the `subscribeFinalizedHeads` wiring (src/index.ts:83-99). These
  are network I/O and callbacks. Each call of the handler is modelled alone.
  Concurrent handler runs for overlapping blocks are not modelled.
- No retry or backoff. No attempt records and no idempotency by transfer
  nonce. No serialised allocation of the custody nonce. The source has none of
  these, so nothing here claims them.
