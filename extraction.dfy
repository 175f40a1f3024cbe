/** The first half of the checker: turn the downloaded vCard document into
    the sorted list of every telephone value in it
    (`downloadVcfCardAndGetPhoneNumbers`). The HTTP request and the vCard
    decoder are not modelled; their results are the input. */
module Extraction {
  import opened GoStrings
  import opened Sorting
  import opened Outcomes

  /** A decoded vCard: each property name maps to the values of the
      properties with that name, in the order they appear in the card. */
  type Card = map<GoString, seq<GoString>>

  /** The vCard property name of a telephone number. */
  const FieldTelephone: GoString := Ascii("TEL")

  /** `card.Values(name)`: the values of the named property, none when the
      card has no such property. */
  function Values(card: Card, name: GoString): seq<GoString>
  {
    if name in card then card[name] else []
  }

  /** One result of `decoder.Decode()`. */
  datatype DecodeResult =
    | Parsed(card: Card)
    | Eof
    | Failed(message: string)

  /** The outcome of `http.Get`: a transport error, or a body whose decoder
      returns the results in `steps` one after the other, and EOF once they
      are used up. The response status is not looked at. */
  datatype Response =
    | TransportFailed(message: string)
    | Body(steps: seq<DecodeResult>)

  /** The cards the decoder returns before its first EOF or error. */
  function CardsBeforeEnd(steps: seq<DecodeResult>): seq<Card>
  {
    if steps == [] || !steps[0].Parsed? then [] else [steps[0].card] + CardsBeforeEnd(steps[1..])
  }

  /** The cards read are exactly the leading parsed steps, in order, and the
      step after them, if there is one, is EOF or an error. */
  lemma {:induction false} CardsBeforeEndLeading(steps: seq<DecodeResult>)
    ensures |CardsBeforeEnd(steps)| <= |steps|
    ensures forall i :: 0 <= i < |CardsBeforeEnd(steps)| ==> steps[i] == Parsed(CardsBeforeEnd(steps)[i])
    ensures |CardsBeforeEnd(steps)| < |steps| ==> !steps[|CardsBeforeEnd(steps)|].Parsed?
  {
    if steps != [] && steps[0].Parsed? {
      CardsBeforeEndLeading(steps[1..]);
      var rest := CardsBeforeEnd(steps[1..]);
      assert CardsBeforeEnd(steps) == [steps[0].card] + rest;
      forall i | 0 < i < |CardsBeforeEnd(steps)|
        ensures steps[i] == Parsed(CardsBeforeEnd(steps)[i])
      {
        assert steps[i] == steps[1..][i - 1];
      }
    }
  }

  /** How decoding ends: EOF, or the first error the decoder returns. */
  function EndOf(steps: seq<DecodeResult>): (r: DecodeResult)
    ensures !r.Parsed?
  {
    if steps == [] then Eof
    else if steps[0].Parsed? then EndOf(steps[1..])
    else steps[0]
  }

  /** Every telephone value of every card: cards in order, and the values of
      each card in their own order. Nothing is dropped or merged. */
  function Telephones(cards: seq<Card>): seq<GoString>
  {
    if cards == [] then [] else Values(cards[0], FieldTelephone) + Telephones(cards[1..])
  }

  /** The number of telephone values, counted card by card. */
  function TelephoneCount(cards: seq<Card>): nat
  {
    if cards == [] then 0 else |Values(cards[0], FieldTelephone)| + TelephoneCount(cards[1..])
  }

  /** What the download step yields: the error that stops it, or the
      telephone values of the decoded cards in Go string order. */
  function Extracted(response: Response): (r: Result<seq<GoString>>)
    ensures response.TransportFailed? ==> r == Err(Transport(response.message))
    ensures response.Body? && EndOf(response.steps).Failed? ==> r == Err(Decode(EndOf(response.steps).message))
    ensures r.Ok? <==> response.Body? && !EndOf(response.steps).Failed?
    ensures r.Ok? ==> Sorted(r.value) && multiset(r.value) == multiset(Telephones(CardsBeforeEnd(response.steps)))
  {
    match response
    case TransportFailed(m) => Err(Transport(m))
    case Body(steps) =>
      if EndOf(steps).Failed? then Err(Decode(EndOf(steps).message))
      else Ok(SortStrings(Telephones(CardsBeforeEnd(steps))))
  }

  lemma {:induction false} TelephonesConcat(a: seq<Card>, b: seq<Card>)
    ensures Telephones(a + b) == Telephones(a) + Telephones(b)
  {
    if a != [] {
      assert (a + b)[1..] == a[1..] + b;
      TelephonesConcat(a[1..], b);
    } else {
      assert a + b == b;
    }
  }

  /** Decoding one more card appends its telephone values at the end. */
  lemma TelephonesAppend(cards: seq<Card>, card: Card)
    ensures Telephones(cards + [card]) == Telephones(cards) + Values(card, FieldTelephone)
  {
    TelephonesConcat(cards, [card]);
    assert [card][1..] == [];
  }

  /** No value is dropped and none is merged: the length is the sum of the
      per-card counts. */
  lemma {:induction false} TelephonesLength(cards: seq<Card>)
    ensures |Telephones(cards)| == TelephoneCount(cards)
  {
    if cards != [] {
      TelephonesLength(cards[1..]);
    }
  }

  /** Value `k` of card `i` sits right after the values of the cards before
      card `i`. */
  lemma TelephoneAt(cards: seq<Card>, i: nat, k: nat)
    requires i < |cards| && k < |Values(cards[i], FieldTelephone)|
    ensures |Telephones(cards[..i])| + k < |Telephones(cards)|
    ensures Telephones(cards)[|Telephones(cards[..i])| + k] == Values(cards[i], FieldTelephone)[k]
  {
    assert cards == cards[..i] + ([cards[i]] + cards[i + 1..]);
    TelephonesConcat(cards[..i], [cards[i]] + cards[i + 1..]);
    assert ([cards[i]] + cards[i + 1..])[1..] == cards[i + 1..];
  }

  /** A string is extracted exactly when some card carries it as a telephone
      value. */
  lemma {:induction false} TelephonesMembers(cards: seq<Card>, x: GoString)
    ensures x in Telephones(cards) <==> exists i :: 0 <= i < |cards| && x in Values(cards[i], FieldTelephone)
  {
    if cards != [] {
      TelephonesMembers(cards[1..], x);
      if x in Values(cards[0], FieldTelephone) {
      } else if x in Telephones(cards[1..]) {
        var i :| 0 <= i < |cards[1..]| && x in Values(cards[1..][i], FieldTelephone);
        assert x in Values(cards[i + 1], FieldTelephone);
      } else {
        forall i | 0 <= i < |cards| ensures x !in Values(cards[i], FieldTelephone) {
          if i > 0 {
            assert cards[i] == cards[1..][i - 1];
          }
        }
      }
    }
  }

  /** Taking card `k` out of the list takes exactly its telephone values out. */
  lemma TelephonesWithout(cards: seq<Card>, k: nat)
    requires k < |cards|
    ensures multiset(Telephones(cards)) ==
      multiset(Values(cards[k], FieldTelephone)) + multiset(Telephones(cards[..k] + cards[k + 1..]))
  {
    assert cards == cards[..k] + ([cards[k]] + cards[k + 1..]);
    TelephonesConcat(cards[..k], [cards[k]] + cards[k + 1..]);
    assert ([cards[k]] + cards[k + 1..])[1..] == cards[k + 1..];
    TelephonesConcat(cards[..k], cards[k + 1..]);
  }

  /** Reordering the cards does not change which telephone values are
      extracted, nor how often. */
  lemma {:induction false} TelephonesCardPermutation(cards: seq<Card>, other: seq<Card>)
    requires multiset(cards) == multiset(other)
    ensures multiset(Telephones(cards)) == multiset(Telephones(other))
  {
    if cards == [] {
      assert |multiset(other)| == 0;
    } else {
      var c := cards[0];
      assert c in multiset(other);
      var k :| 0 <= k < |other| && other[k] == c;
      var rest := other[..k] + other[k + 1..];
      assert other == other[..k] + [c] + other[k + 1..];
      assert multiset(rest) == multiset(other) - multiset{c};
      assert cards == [c] + cards[1..];
      assert multiset(cards[1..]) == multiset(cards) - multiset{c};
      TelephonesCardPermutation(cards[1..], rest);
      TelephonesWithout(other, k);
    }
  }

  /** Reordering the telephone values inside each card does not change which
      values are extracted, nor how often. */
  lemma {:induction false} TelephonesValuePermutation(cards: seq<Card>, other: seq<Card>)
    requires |cards| == |other|
    requires forall i :: 0 <= i < |cards| ==>
      multiset(Values(cards[i], FieldTelephone)) == multiset(Values(other[i], FieldTelephone))
    ensures multiset(Telephones(cards)) == multiset(Telephones(other))
  {
    if cards != [] {
      assert multiset(Values(cards[0], FieldTelephone)) == multiset(Values(other[0], FieldTelephone));
      TelephonesValuePermutation(cards[1..], other[1..]);
    }
  }

  /** Decoding resumes at step `i`: a card there is the next card read, an
      EOF or error there is how decoding ends, and so is running out. */
  lemma DecodeFrom(steps: seq<DecodeResult>, i: nat)
    requires i <= |steps|
    ensures i < |steps| && steps[i].Parsed? ==>
      CardsBeforeEnd(steps[i..]) == [steps[i].card] + CardsBeforeEnd(steps[i + 1..]) &&
      EndOf(steps[i..]) == EndOf(steps[i + 1..])
    ensures (i == |steps| || !steps[i].Parsed?) ==>
      CardsBeforeEnd(steps[i..]) == [] &&
      EndOf(steps[i..]) == if i == |steps| then Eof else steps[i]
  {
    if i < |steps| {
      assert steps[i..][0] == steps[i];
      assert steps[i..][1..] == steps[i + 1..];
    }
  }

  /** The inner `for … range card.Values(…)` loop: append each value to
      the list in turn. */
  method AppendValues(numbers: seq<GoString>, values: seq<GoString>) returns (r: seq<GoString>)
    ensures r == numbers + values
  {
    r := numbers;
    for k := 0 to |values|
      invariant r == numbers + values[..k]
    {
      r := r + [values[k]];
    }
    assert values[..|values|] == values;
  }

  /** The decode loop of `downloadVcfCardAndGetPhoneNumbers`: ask the decoder
      for card after card until EOF and append each card's telephone values.
      A decode error other than EOF ends the loop with that error, and what
      was collected is dropped. */
  method CollectTelephones(steps: seq<DecodeResult>) returns (r: Result<seq<GoString>>)
    ensures EndOf(steps).Failed? ==> r == Err(Decode(EndOf(steps).message))
    ensures !EndOf(steps).Failed? ==> r == Ok(Telephones(CardsBeforeEnd(steps)))
  {
    var numbers: seq<GoString> := [];
    ghost var cards: seq<Card> := [];
    var i := 0;
    while true
      invariant 0 <= i <= |steps|
      invariant CardsBeforeEnd(steps) == cards + CardsBeforeEnd(steps[i..])
      invariant EndOf(steps) == EndOf(steps[i..])
      invariant numbers == Telephones(cards)
      decreases |steps| - i
    {
      var next := if i < |steps| then steps[i] else Eof;
      DecodeFrom(steps, i);
      if next.Eof? {
        break;
      } else if next.Failed? {
        return Err(Decode(next.message));
      }
      numbers := AppendValues(numbers, Values(next.card, FieldTelephone));
      TelephonesAppend(cards, next.card);
      cards := cards + [next.card];
      i := i + 1;
    }
    assert cards + [] == cards;
    return Ok(numbers);
  }

  /** `downloadVcfCardAndGetPhoneNumbers`, from the HTTP response on: a
      transport error is returned as it is; otherwise the telephone values
      of the decoded cards are collected and the list is sorted in place. */
  method DownloadVcfCardAndGetPhoneNumbers(response: Response) returns (r: Result<seq<GoString>>)
    ensures r == Extracted(response)
    ensures r.Ok? ==> Sorted(r.value) && multiset(r.value) == multiset(Telephones(CardsBeforeEnd(response.steps)))
  {
    if response.TransportFailed? {
      return Err(Transport(response.message));
    }
    var collected := CollectTelephones(response.steps);
    if collected.Err? {
      return collected;
    }
    var numbers := collected.value;
    var a := new GoString[|numbers|](j requires 0 <= j < |numbers| => numbers[j]);
    assert a[..] == numbers;
    SortInPlace(a);
    r := Ok(a[..]);
  }
}
