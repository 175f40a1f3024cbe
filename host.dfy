/** What the checker touches outside itself: the Redis value stored under
    the key `PDPhoneNumbers`, and the desktop on which it raises alerts.
    Every Redis command and every alert is appended to a log of effects, so
    that their number and order can be stated. Whether a Redis command
    fails is decided by the network, and is an input here. */
module Host {
  import opened GoStrings
  import opened Outcomes

  /** One thing the checker did to the world, in the order it happened. */
  datatype Effect =
    | RedisGet                                            // GET PDPhoneNumbers
    | RedisSet(value: GoString)                           // SET PDPhoneNumbers value
    | Alert(title: string, message: string, sticky: bool) // notifize.Display

  const AlertTitle: string := "Pager Duty VCF Checker"
  const AlertMessage: string := "Phone Numbers changed. Please download new ones"

  class World {
    /** The value under `PDPhoneNumbers`; a key never set reads as "". */
    var cell: GoString
    var effects: seq<Effect>

    constructor (stored: GoString)
      ensures cell == stored && effects == []
    {
      cell := stored;
      effects := [];
    }

    /** `getNumbersFromRedis`: one GET round trip. It yields the stored
        value, or the error of a failed round trip; the cell is not
        changed either way. */
    method GetNumbersFromRedis(fault: Option<string>) returns (r: Result<GoString>)
      modifies this
      ensures cell == old(cell)
      ensures effects == old(effects) + [RedisGet]
      ensures r == if fault.None? then Ok(cell) else Err(Store(fault.value))
    {
      effects := effects + [RedisGet];
      if fault.Some? {
        return Err(Store(fault.value));
      }
      return Ok(cell);
    }

    /** `storePhoneNumbers`: raise the alert first (its outcome is not
        looked at), then one SET round trip. A successful SET leaves
        `numbers` in the cell; a failed one leaves the cell as it was and
        returns the error. */
    method StorePhoneNumbers(numbers: GoString, fault: Option<string>) returns (err: Option<Error>)
      modifies this
      ensures effects == old(effects) + [Alert(AlertTitle, AlertMessage, true), RedisSet(numbers)]
      ensures err == if fault.None? then None else Some(Store(fault.value))
      ensures cell == if fault.None? then numbers else old(cell)
    {
      effects := effects + [Alert(AlertTitle, AlertMessage, true)];
      effects := effects + [RedisSet(numbers)];
      if fault.Some? {
        return Some(Store(fault.value));
      }
      cell := numbers;
      return None;
    }
  }

  /** Redis round trip: a value stored by a successful SET is what the next
      successful GET returns. */
  method StoreThenRead(w: World, numbers: GoString) returns (r: Result<GoString>)
    modifies w
    ensures r == Ok(numbers)
    ensures w.cell == numbers
    ensures w.effects == old(w.effects) + [Alert(AlertTitle, AlertMessage, true), RedisSet(numbers), RedisGet]
  {
    var err := w.StorePhoneNumbers(numbers, None);
    r := w.GetNumbersFromRedis(None);
  }
}
