/** Selection and positional decoding of the bridge-transfer event in a
    finalized Crust block (the `for` loop of `bridgeHandler`). */
module CrustEvents {
  import opened Results

  /** One field of an event's data tuple, in the two renderings the handler
      reads: `toHuman()` and `toString()`. */
  datatype Datum = Datum(human: string, text: string)

  /** An event record as the handler reads it: `section`, `method`, `data`. */
  datatype Event = Event(section: string, methodName: string, data: seq<Datum>)

  const BridgeEventMethod: string := "chainBridge.FungibleTransfer"
  const BridgeEventCode: string := "100"

  /** The local variables the loop overwrites: crustSideAmount,
      elrondReceipt and eventNonce. */
  datatype Decoded = Decoded(amount: string, recipient: string, nonce: string)

  const Initial: Decoded := Decoded("", "", "")

  /** Reading a data field past the end of the tuple throws, which ends the
      whole handler; the error names the event being read. */
  datatype ScanError = MalformedEvent(index: nat)

  function QualifiedName(section: string, methodName: string): string {
    section + "." + methodName
  }

  /** What the loop body does with one event. */
  datatype Verdict = Skip | Match | Malformed

  /** The guard `bridgeEventMethod === eventMethod && bridgeEventCode ===
      data[0].toHuman()`, with `&&` short-circuiting, followed by the reads of
      data[3], data[4] and data[1]. */
  function Classify(e: Event): Verdict {
    if QualifiedName(e.section, e.methodName) != BridgeEventMethod then Skip
    else if |e.data| == 0 then Malformed
    else if e.data[0].human != BridgeEventCode then Skip
    else if |e.data| < 5 then Malformed
    else Match
  }

  /** The fields a selected event assigns, by position. */
  function Selected(e: Event): Decoded
    requires Classify(e) == Match
  {
    Decoded(e.data[3].text, e.data[4].human, e.data[1].text)
  }

  /** The loop as a left fold over the events: the state after the scan of
      `events`, or the first event whose read throws. */
  function Scan(events: seq<Event>): Result<Decoded, ScanError>
    decreases |events|
  {
    if events == [] then Ok(Initial)
    else
      var prev := Scan(events[..|events| - 1]);
      var e := events[|events| - 1];
      if prev.Err? then prev
      else match Classify(e)
        case Skip => prev
        case Malformed => Err(MalformedEvent(|events| - 1))
        case Match => Ok(Selected(e))
  }

  /** The handler's loop: reassigns the three locals at every selected event. */
  method ScanEvents(events: seq<Event>) returns (r: Result<Decoded, ScanError>)
    ensures r == Scan(events)
  {
    var crustSideAmount, elrondReceipt, eventNonce := "", "", "";
    var i := 0;
    while i < |events|
      invariant 0 <= i <= |events|
      invariant Scan(events[..i]) == Ok(Decoded(crustSideAmount, elrondReceipt, eventNonce))
    {
      var e := events[i];
      assert events[..i + 1][..i] == events[..i];
      var eventMethod := e.section + "." + e.methodName;
      if BridgeEventMethod == eventMethod {
        if |e.data| == 0 {
          r := Err(MalformedEvent(i));
          ScanErrorSticks(events, i + 1);
          return;
        }
        if BridgeEventCode == e.data[0].human {
          if |e.data| < 5 {
            r := Err(MalformedEvent(i));
            ScanErrorSticks(events, i + 1);
            return;
          }
          crustSideAmount := e.data[3].text;
          elrondReceipt := e.data[4].human;
          eventNonce := e.data[1].text;
        }
      }
      i := i + 1;
    }
    assert events[..i] == events;
    r := Ok(Decoded(crustSideAmount, elrondReceipt, eventNonce));
  }

  /** Once an event throws, later events cannot change the outcome. */
  lemma {:induction false} ScanErrorSticks(events: seq<Event>, k: nat)
    requires k <= |events| && Scan(events[..k]).Err?
    ensures Scan(events) == Scan(events[..k])
    decreases |events| - k
  {
    if k == |events| {
      assert events[..k] == events;
    } else {
      assert events[..k + 1][..k] == events[..k];
      ScanErrorSticks(events, k + 1);
    }
  }

  // ---------- independent characterisations of the scan ----------

  predicate NoMalformed(events: seq<Event>) {
    forall i :: 0 <= i < |events| ==> Classify(events[i]) != Malformed
  }

  predicate NoMatch(events: seq<Event>) {
    forall i :: 0 <= i < |events| ==> Classify(events[i]) != Match
  }

  /** `k` is the last selected event of `events`. */
  predicate IsLastMatch(events: seq<Event>, k: int) {
    0 <= k < |events| && Classify(events[k]) == Match &&
    forall j :: k < j < |events| ==> Classify(events[j]) != Match
  }

  /** The qualified-name test holds exactly for section "chainBridge" and
      method "FungibleTransfer": no other split of the constant around a
      '.' exists. */
  lemma QualifiedNameMatches(section: string, methodName: string)
    ensures QualifiedName(section, methodName) == BridgeEventMethod <==>
            section == "chainBridge" && methodName == "FungibleTransfer"
  {
    var q := QualifiedName(section, methodName);
    if q == BridgeEventMethod {
      assert q[|section|] == '.';
      assert forall i :: 0 <= i < |BridgeEventMethod| && i != 11 ==> BridgeEventMethod[i] != '.';
      assert |section| == 11;
      assert section == q[..11];
      assert methodName == q[12..];
    }
  }

  /** An event is selected if and only if it is a chainBridge.FungibleTransfer
      whose first datum reads "100" and whose tuple has the five fields read. */
  lemma SelectionExact(e: Event)
    ensures Classify(e) == Match <==>
            e.section == "chainBridge" && e.methodName == "FungibleTransfer" &&
            |e.data| >= 5 && e.data[0].human == "100"
    ensures Classify(e) == Malformed <==>
            e.section == "chainBridge" && e.methodName == "FungibleTransfer" &&
            (|e.data| == 0 || (e.data[0].human == "100" && |e.data| < 5))
  {
    QualifiedNameMatches(e.section, e.methodName);
  }

  /** An event that is not selected leaves the decoded state as it was. */
  lemma SkipLeavesStateUnchanged(events: seq<Event>, e: Event)
    requires Classify(e) == Skip
    ensures Scan(events + [e]) == Scan(events)
  {
    assert (events + [e])[..|events|] == events;
  }

  /** The scan throws exactly when some event is malformed, and then it names
      the first one. */
  lemma {:induction false} ScanFailsAtFirstMalformed(events: seq<Event>)
    ensures Scan(events).Err? <==> !NoMalformed(events)
    ensures Scan(events).Err? ==>
              var k := Scan(events).error.index;
              k < |events| && Classify(events[k]) == Malformed &&
              NoMalformed(events[..k])
    decreases |events|
  {
    if events != [] {
      var n := |events| - 1;
      var p := events[..n];
      ScanFailsAtFirstMalformed(p);
      assert forall i :: 0 <= i < n ==> p[i] == events[i];
      if Scan(p).Err? {
        var k := Scan(p).error.index;
        assert p[..k] == events[..k];
      } else {
        assert events[..n] == p;
      }
    }
  }

  /** With no malformed event and no selected event, the locals keep their
      initial empty strings. */
  lemma {:induction false} ScanWithoutMatch(events: seq<Event>)
    requires NoMalformed(events) && NoMatch(events)
    ensures Scan(events) == Ok(Initial)
    decreases |events|
  {
    if events != [] {
      var p := events[..|events| - 1];
      assert forall i :: 0 <= i < |p| ==> p[i] == events[i];
      ScanWithoutMatch(p);
    }
  }

  /** With no malformed event, the locals after the loop hold the fields of
      the last selected event; earlier matches are overwritten. */
  lemma {:induction false} ScanLastMatchWins(events: seq<Event>, k: int)
    requires NoMalformed(events) && IsLastMatch(events, k)
    ensures Scan(events) == Ok(Selected(events[k]))
    decreases |events|
  {
    var n := |events| - 1;
    var p := events[..n];
    assert forall i :: 0 <= i < n ==> p[i] == events[i];
    if k == n {
      ScanFailsAtFirstMalformed(p);
    } else {
      assert IsLastMatch(p, k);
      ScanLastMatchWins(p, k);
    }
  }

  /** A bridge transfer with discriminant "100", nonce 7, amount
      500000000000000 and recipient addrX. */
  const ExampleTransfer: Event := Event("chainBridge", "FungibleTransfer",
    [Datum("100", "100"), Datum("7", "7"), Datum("0x00", "0x00"),
     Datum("500,000,000,000,000", "500000000000000"), Datum("addrX", "addrX")])

  const ExampleOther: Event := Event("system", "ExtrinsicSuccess", [])

  /** A block holding that transfer between two unrelated events. */
  const ExampleBlock: seq<Event> := [ExampleOther, ExampleTransfer, ExampleOther]

  /** The example block decodes to exactly the transfer's fields. */
  lemma ScenarioBlock()
    ensures Scan(ExampleBlock) == Ok(Decoded("500000000000000", "addrX", "7"))
  {
    QualifiedNameMatches("system", "ExtrinsicSuccess");
    QualifiedNameMatches("chainBridge", "FungibleTransfer");
    assert Classify(ExampleOther) == Skip;
    assert Classify(ExampleTransfer) == Match;
    assert IsLastMatch(ExampleBlock, 1);
    ScanLastMatchWins(ExampleBlock, 1);
  }
}
