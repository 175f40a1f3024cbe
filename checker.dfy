/** One run of the checker (`main`): download and extract the numbers, read
    the stored token, and when the fresh token differs, raise the alert and
    store the fresh token. `Expected` states the whole run as a function of
    its inputs; `CheckOnce` is the run itself, proved equal to it; the
    lemmas state what the run promises. */
module Checker {
  import opened GoStrings
  import opened Sorting
  import opened Outcomes
  import opened Extraction
  import opened Host

  /** The separator `strings.Join` puts between the numbers. */
  const Separator: GoString := Ascii("|")

  /** The token compared with, and stored in, the Redis cell. */
  function Token(numbers: seq<GoString>): GoString
  {
    Join(numbers, Separator)
  }

  /** How the process ends: normally, or through `log.Fatal`. */
  datatype Exit = Completed | Fatal(error: Error)

  /** What a run leaves behind: how it ended, the cell, and the effects in
      the order they happened. */
  datatype RunOutcome = RunOutcome(exit: Exit, cell: GoString, effects: seq<Effect>)

  /** The token of the downloaded document, or the error that stopped the
      download. */
  function FreshToken(response: Response): Result<GoString>
  {
    match Extracted(response)
    case Ok(numbers) => Ok(Token(numbers))
    case Err(e) => Err(e)
  }

  /** A run that starts with `stored` in the cell, whose download yields
      `response`, and whose GET and SET round trips fail with `readFault`
      and `writeFault` (when these are present). */
  function Expected(stored: GoString, response: Response, readFault: Option<string>, writeFault: Option<string>): RunOutcome
  {
    match FreshToken(response)
    case Err(e) => RunOutcome(Fatal(e), stored, [])
    case Ok(token) =>
      if readFault.Some? then RunOutcome(Fatal(Store(readFault.value)), stored, [RedisGet])
      else if stored == token then RunOutcome(Completed, stored, [RedisGet])
      else
        var effects := [RedisGet, Alert(AlertTitle, AlertMessage, true), RedisSet(token)];
        if writeFault.Some? then RunOutcome(Fatal(Store(writeFault.value)), stored, effects)
        else RunOutcome(Completed, token, effects)
  }

  /** `main`: download and extract, read the cell, compare, and on a
      difference alert and store. Each error ends the run through
      `log.Fatal`. */
  method CheckOnce(w: World, response: Response, readFault: Option<string>, writeFault: Option<string>)
    returns (exit: Exit)
    modifies w
    ensures var run := Expected(old(w.cell), response, readFault, writeFault);
      exit == run.exit && w.cell == run.cell && w.effects == old(w.effects) + run.effects
  {
    var freshNumbers := DownloadVcfCardAndGetPhoneNumbers(response);
    if freshNumbers.Err? {
      return Fatal(freshNumbers.error);
    }
    var storedNumbersString := w.GetNumbersFromRedis(readFault);
    if storedNumbersString.Err? {
      return Fatal(storedNumbersString.error);
    }
    var freshNumbersString := Token(freshNumbers.value);
    if storedNumbersString.value != freshNumbersString {
      var err := w.StorePhoneNumbers(freshNumbersString, writeFault);
      if err.Some? {
        return Fatal(err.value);
      }
    }
    return Completed;
  }

  /** The number of alerts among `effects`. */
  function Alerts(effects: seq<Effect>): nat
  {
    if effects == [] then 0 else (if effects[0].Alert? then 1 else 0) + Alerts(effects[1..])
  }

  /** The number of SET commands among `effects`. */
  function Writes(effects: seq<Effect>): nat
  {
    if effects == [] then 0 else (if effects[0].RedisSet? then 1 else 0) + Writes(effects[1..])
  }

  /** The number of GET commands among `effects`. */
  function Reads(effects: seq<Effect>): nat
  {
    if effects == [] then 0 else (if effects[0].RedisGet? then 1 else 0) + Reads(effects[1..])
  }

  /** The fresh token depends only on which numbers the cards carry and how
      often: any two lists with the same numbers sort and join alike. */
  lemma TokenDependsOnlyOnMultiset(numbers: seq<GoString>, other: seq<GoString>)
    requires multiset(numbers) == multiset(other)
    ensures Token(SortStrings(numbers)) == Token(SortStrings(other))
  {
    SortStringsPermutationInvariant(numbers, other);
  }

  /** Two documents whose decoders end the same way and yield the same cards
      in a different order lead to the same run. */
  lemma CardOrderIrrelevant(stored: GoString, steps: seq<DecodeResult>, other: seq<DecodeResult>,
                            readFault: Option<string>, writeFault: Option<string>)
    requires EndOf(steps) == EndOf(other)
    requires multiset(CardsBeforeEnd(steps)) == multiset(CardsBeforeEnd(other))
    ensures Expected(stored, Body(steps), readFault, writeFault) == Expected(stored, Body(other), readFault, writeFault)
  {
    TelephonesCardPermutation(CardsBeforeEnd(steps), CardsBeforeEnd(other));
    SortStringsPermutationInvariant(Telephones(CardsBeforeEnd(steps)), Telephones(CardsBeforeEnd(other)));
  }

  /** Two documents whose decoders end the same way and yield, card by card,
      the same telephone values in a different order lead to the same run. */
  lemma ValueOrderIrrelevant(stored: GoString, steps: seq<DecodeResult>, other: seq<DecodeResult>,
                             readFault: Option<string>, writeFault: Option<string>)
    requires EndOf(steps) == EndOf(other)
    requires |CardsBeforeEnd(steps)| == |CardsBeforeEnd(other)|
    requires forall i :: 0 <= i < |CardsBeforeEnd(steps)| ==>
      multiset(Values(CardsBeforeEnd(steps)[i], FieldTelephone)) == multiset(Values(CardsBeforeEnd(other)[i], FieldTelephone))
    ensures Expected(stored, Body(steps), readFault, writeFault) == Expected(stored, Body(other), readFault, writeFault)
  {
    TelephonesValuePermutation(CardsBeforeEnd(steps), CardsBeforeEnd(other));
    SortStringsPermutationInvariant(Telephones(CardsBeforeEnd(steps)), Telephones(CardsBeforeEnd(other)));
  }

  /** A failed download or a decode error ends the run before any Redis
      command or alert, with the cell untouched, and only then is the effect
      log of a run empty. */
  lemma DownloadErrorAbortsFirst(stored: GoString, response: Response, readFault: Option<string>, writeFault: Option<string>)
    ensures Expected(stored, response, readFault, writeFault).effects == [] <==> Extracted(response).Err?
    ensures Extracted(response).Err? ==>
      Expected(stored, response, readFault, writeFault) == RunOutcome(Fatal(Extracted(response).error), stored, [])
  {
  }

  /** The cards decoded before a decode error make no difference: the run is
      the one of a document that fails at once. */
  lemma DecodeErrorDiscardsCards(stored: GoString, steps: seq<DecodeResult>, readFault: Option<string>, writeFault: Option<string>)
    requires EndOf(steps).Failed?
    ensures Expected(stored, Body(steps), readFault, writeFault) == Expected(stored, Body([EndOf(steps)]), readFault, writeFault)
    ensures Expected(stored, Body(steps), readFault, writeFault).exit == Fatal(Decode(EndOf(steps).message))
  {
    assert EndOf([EndOf(steps)]) == EndOf(steps);
  }

  /** When the stored token equals the fresh one, the run reads the cell
      once and does nothing else: no alert, no SET, the cell unchanged. */
  lemma UnchangedIsNoOp(stored: GoString, response: Response, writeFault: Option<string>)
    requires FreshToken(response) == Ok(stored)
    ensures Expected(stored, response, None, writeFault) == RunOutcome(Completed, stored, [RedisGet])
  {
  }

  /** When the stored token differs from the fresh one, the run reads the
      cell, raises exactly one alert and then sends exactly one SET of the
      fresh token. A successful SET leaves the fresh token in the cell; a
      failed one leaves the cell as it was and ends the run with its error,
      after the alert was raised. */
  lemma ChangedAlertsThenWrites(stored: GoString, response: Response, writeFault: Option<string>)
    requires FreshToken(response).Ok? && FreshToken(response).value != stored
    ensures var token := FreshToken(response).value;
      var run := Expected(stored, response, None, writeFault);
      && run.effects == [RedisGet, Alert(AlertTitle, AlertMessage, true), RedisSet(token)]
      && (writeFault.None? ==> run.exit == Completed && run.cell == token)
      && (writeFault.Some? ==> run.exit == Fatal(Store(writeFault.value)) && run.cell == stored)
  {
  }

  lemma {:induction false} CountsOfConcat(a: seq<Effect>, b: seq<Effect>)
    ensures Alerts(a + b) == Alerts(a) + Alerts(b)
    ensures Writes(a + b) == Writes(a) + Writes(b)
    ensures Reads(a + b) == Reads(a) + Reads(b)
  {
    if a == [] {
      assert a + b == b;
    } else {
      assert (a + b)[1..] == a[1..] + b;
      CountsOfConcat(a[1..], b);
    }
  }

  lemma CountsOfOne(e: Effect)
    ensures Alerts([e]) == (if e.Alert? then 1 else 0)
    ensures Writes([e]) == (if e.RedisSet? then 1 else 0)
    ensures Reads([e]) == (if e.RedisGet? then 1 else 0)
  {
    assert [e][1..] == [];
  }

  lemma CountsOfThree(token: GoString)
    ensures var effects := [RedisGet, Alert(AlertTitle, AlertMessage, true), RedisSet(token)];
      Alerts(effects) == 1 && Writes(effects) == 1 && Reads(effects) == 1
  {
    var alert := Alert(AlertTitle, AlertMessage, true);
    CountsOfOne(RedisGet);
    CountsOfOne(alert);
    CountsOfOne(RedisSet(token));
    CountsOfConcat([RedisGet], [alert]);
    CountsOfConcat([RedisGet, alert], [RedisSet(token)]);
    assert [RedisGet] + [alert] == [RedisGet, alert];
    assert [RedisGet, alert] + [RedisSet(token)] == [RedisGet, alert, RedisSet(token)];
  }

  /** Every run sends at most one GET, at most one alert and at most one
      SET; it alerts exactly when it writes, and it does both exactly when
      the download and the GET succeed and the stored token differs from the
      fresh one. The cell changes only to the fresh token. */
  lemma AlertExactlyWhenChanged(stored: GoString, response: Response, readFault: Option<string>, writeFault: Option<string>)
    ensures var run := Expected(stored, response, readFault, writeFault);
      && Reads(run.effects) <= 1
      && Alerts(run.effects) == Writes(run.effects) <= 1
      && (Alerts(run.effects) == 1 <==>
            FreshToken(response).Ok? && readFault.None? && FreshToken(response).value != stored)
      && (run.cell != stored ==> FreshToken(response) == Ok(run.cell) && run.exit == Completed)
  {
    match FreshToken(response)
    case Err(_) =>
    case Ok(token) =>
      assert [RedisGet][1..] == [];
      CountsOfThree(token);
  }

  /** Once a run has completed, a second run on the same document neither
      alerts nor writes, whatever its own round trips do. */
  lemma SecondRunIsNoOp(stored: GoString, response: Response,
                        readFault: Option<string>, writeFault: Option<string>,
                        readFault2: Option<string>, writeFault2: Option<string>)
    requires Expected(stored, response, readFault, writeFault).exit == Completed
    ensures var first := Expected(stored, response, readFault, writeFault);
      var second := Expected(first.cell, response, readFault2, writeFault2);
      && Alerts(second.effects) == 0 && Writes(second.effects) == 0
      && second.cell == first.cell
  {
    var first := Expected(stored, response, readFault, writeFault);
    assert FreshToken(response) == Ok(first.cell);
    assert [RedisGet][1..] == [];
  }

  /** No numbers at all give the empty token, which equals an empty (or
      never set) cell: such a run reads the cell and changes nothing. */
  lemma NoNumbersMatchEmptyCell(steps: seq<DecodeResult>, writeFault: Option<string>)
    requires !EndOf(steps).Failed?
    requires TelephoneCount(CardsBeforeEnd(steps)) == 0
    ensures Expected([], Body(steps), None, writeFault) == RunOutcome(Completed, [], [RedisGet])
  {
    TelephonesLength(CardsBeforeEnd(steps));
  }

  /** The token has no inverse: numbers may contain "|", and the empty list
      and the list holding one empty number give the same token. */
  lemma TokenNotInjective()
    ensures Token([Ascii("a|b")]) == Token([Ascii("a"), Ascii("b")])
    ensures Token([]) == Token([[]])
  {
    assert Ascii("a|b") == Ascii("a") + Separator + Ascii("b");
  }

  /** A card whose only property is the given telephone values. */
  function TelephoneCard(numbers: seq<GoString>): Card
  {
    map[FieldTelephone := numbers]
  }

  /** A document holding one card lists that card's numbers, sorted. */
  lemma OneCardToken(numbers: seq<GoString>)
    ensures FreshToken(Body([Parsed(TelephoneCard(numbers))])) == Ok(Token(SortStrings(numbers)))
  {
    var card := TelephoneCard(numbers);
    var steps := [Parsed(card)];
    assert steps[1..] == [];
    assert EndOf(steps) == Eof;
    assert CardsBeforeEnd(steps) == [card];
    assert Telephones([card]) == numbers by {
      assert [card][1..] == [];
    }
  }

  /** Two numbers, in either order, give the smaller, "|", the larger. */
  lemma TwoNumbersToken(a: GoString, b: GoString)
    requires Less(a, b)
    ensures SortStrings([b, a]) == SortStrings([a, b]) == [a, b]
    ensures Token([a, b]) == a + Separator + b
  {
    assert SortStrings([b, a]) == [a, b] by {
      assert [b, a][1..] == [a];
      assert [a][1..] == [];
      assert SortStrings([a]) == [a];
    }
    assert multiset([a, b]) == multiset([b, a]);
    SortStringsPermutationInvariant([a, b], [b, a]);
    assert [a, b][1..] == [b];
    assert Join([b], Separator) == b;
  }

  const PhoneA: GoString := Ascii("+1 111")
  const PhoneB: GoString := Ascii("+1 222")
  const PhoneC: GoString := Ascii("+1 333")

  lemma PhoneAIsLess()
    ensures Less(PhoneA, PhoneB)
  {
    var a, b := PhoneA, PhoneB;
    assert a == [43, 49, 32, 49, 49, 49];
    assert b == [43, 49, 32, 50, 50, 50];
    assert Less(a[3..], b[3..]);
    assert Less(a[2..], b[2..]) && a[2..][1..] == a[3..] && b[2..][1..] == b[3..];
    assert Less(a[1..], b[1..]) && a[1..][1..] == a[2..] && b[1..][1..] == b[2..];
  }

  /** A first run on a document with "+1 222" and "+1 111", in that order,
      against an empty cell: one alert, and the cell then holds
      "+1 111|+1 222". */
  lemma FirstRunStoresSortedToken()
    ensures var token := PhoneA + Separator + PhoneB;
      Expected([], Body([Parsed(TelephoneCard([PhoneB, PhoneA]))]), None, None) ==
        RunOutcome(Completed, token, [RedisGet, Alert(AlertTitle, AlertMessage, true), RedisSet(token)])
  {
    PhoneAIsLess();
    TwoNumbersToken(PhoneA, PhoneB);
    OneCardToken([PhoneB, PhoneA]);
  }

  /** The next run, on the same two numbers in the opposite order, finds
      the same token in the cell: it reads the cell and does nothing else. */
  lemma ReorderedSecondRunIsNoOp(writeFault: Option<string>)
    ensures var token := PhoneA + Separator + PhoneB;
      Expected(token, Body([Parsed(TelephoneCard([PhoneA, PhoneB]))]), None, writeFault) ==
        RunOutcome(Completed, token, [RedisGet])
  {
    PhoneAIsLess();
    TwoNumbersToken(PhoneA, PhoneB);
    OneCardToken([PhoneA, PhoneB]);
  }

  /** A document that lists one more number than the last stored
      (non-empty) list is reported: one alert, and the new token stored. */
  lemma AddedNumberRun(numbers: seq<GoString>, added: GoString)
    requires numbers != []
    ensures var stored := Token(SortStrings(numbers));
      var run := Expected(stored, Body([Parsed(TelephoneCard(numbers + [added]))]), None, None);
      && run.exit == Completed && run.cell == Token(SortStrings(numbers + [added])) && run.cell != stored
      && run.effects == [RedisGet, Alert(AlertTitle, AlertMessage, true), RedisSet(run.cell)]
  {
    AddedNumberChangesToken(numbers, added);
    OneCardToken(numbers + [added]);
  }

  /** A third run, on a document that also lists "+1 333", alerts once and
      stores the new token. */
  lemma AddedNumberIsReported()
    ensures var stored := PhoneA + Separator + PhoneB;
      var run := Expected(stored, Body([Parsed(TelephoneCard([PhoneA, PhoneB, PhoneC]))]), None, None);
      && run.exit == Completed && run.cell != stored
      && run.effects == [RedisGet, Alert(AlertTitle, AlertMessage, true), RedisSet(run.cell)]
  {
    PhoneAIsLess();
    TwoNumbersToken(PhoneA, PhoneB);
    assert [PhoneA, PhoneB] + [PhoneC] == [PhoneA, PhoneB, PhoneC];
    AddedNumberRun([PhoneA, PhoneB], PhoneC);
  }

  /** A document with one more number than the stored (non-empty) list
      always yields a different token, so the change is reported. */
  lemma AddedNumberChangesToken(numbers: seq<GoString>, added: GoString)
    requires numbers != []
    ensures Token(SortStrings(numbers + [added])) != Token(SortStrings(numbers))
  {
    var longer := numbers + [added];
    JoinLength(SortStrings(numbers), Separator);
    JoinLength(SortStrings(longer), Separator);
    SumLengthsSorted(numbers);
    SumLengthsSorted(longer);
    SumLengthsAppend(numbers, added);
    assert |SortStrings(numbers)| == |numbers| by {
      assert |multiset(SortStrings(numbers))| == |multiset(numbers)|;
    }
    assert |SortStrings(longer)| == |longer| by {
      assert |multiset(SortStrings(longer))| == |multiset(longer)|;
    }
  }
}
