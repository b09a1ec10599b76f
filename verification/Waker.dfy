/**
 The eventfd counter and the waker on top of it: `write(1)` raises the counter, `read`
 empties it, and both report `WouldBlock` at the ends of the counter's range, which the
 waker swallows.
 */
module Waker {
  import opened Words
  import opened Wrappers

  /** Largest value an eventfd counter can hold, 2^64 - 2. */
  const COUNTER_MAX: nat := MODULUS - 2

  datatype IoError = WouldBlock | InvalidInput

  /** Readiness sets are bit masks; the waker compares them for equality only. */
  datatype Ready = Ready(bits: nat)

  const READABLE := Ready(1)
  const WRITABLE := Ready(2)
  const EMPTY := Ready(0)

  predicate ValidCounter(counter: nat) {
    counter <= COUNTER_MAX
  }

  /** The counter after the waker has asked for a wake-up. */
  function Signal(counter: nat): (r: nat)
    requires ValidCounter(counter)
    ensures ValidCounter(r) && r > 0
    ensures r == if counter == 0xFFFF_FFFF_FFFF_FFFE then counter else counter + 1
  {
    if counter == COUNTER_MAX then counter else counter + 1
  }

  /** The counter after `set_readiness`: anything but the three singled-out masks is ignored. */
  function SetTo(counter: nat, ready: Ready): (r: nat)
    requires ValidCounter(counter)
    ensures ValidCounter(r)
  {
    if ready == READABLE || ready == WRITABLE then Signal(counter)
    else if ready == EMPTY then 0
    else counter
  }

  /** The masks are three; the two that ask for a wake-up both raise the counter, and the empty one clears it. */
  lemma Masks(counter: nat, ready: Ready)
    requires ValidCounter(counter)
    ensures READABLE.bits == 1 && WRITABLE.bits == 2 && EMPTY.bits == 0
    ensures ready.bits == 1 || ready.bits == 2 ==>
      SetTo(counter, ready) == if counter == 0xFFFF_FFFF_FFFF_FFFE then counter else counter + 1
    ensures ready.bits == 0 ==> SetTo(counter, ready) == 0
    ensures ready.bits > 2 ==> SetTo(counter, ready) == counter
  {
  }

  /** A non-blocking kernel eventfd in counter mode. */
  class EventFd {
    var counter: nat

    constructor ()
      ensures counter == 0
    {
      counter := 0;
    }

    method Write(val: nat) returns (r: Result<(), IoError>)
      requires ValidCounter(counter) && val < MODULUS
      modifies this
      ensures ValidCounter(counter)
      ensures val == 0xFFFF_FFFF_FFFF_FFFF ==> r == Err(InvalidInput)
      ensures val < 0xFFFF_FFFF_FFFF_FFFF ==>
        r == if old(counter) + val <= 0xFFFF_FFFF_FFFF_FFFE then Ok(()) else Err(WouldBlock)
      ensures counter == if r.Ok? then old(counter) + val else old(counter)
    {
      if val == MODULUS - 1 {
        return Err(InvalidInput);
      }
      if counter + val > COUNTER_MAX {
        return Err(WouldBlock);
      }
      counter := counter + val;
      r := Ok(());
    }

    method Read() returns (r: Result<nat, IoError>)
      modifies this
      ensures r == if old(counter) == 0 then Err(WouldBlock) else Ok(old(counter))
      ensures counter == 0
    {
      if counter == 0 {
        return Err(WouldBlock);
      }
      r := Ok(counter);
      counter := 0;
    }
  }

  class Waker {
    const inner: EventFd

    constructor ()
      ensures fresh(inner) && inner.counter == 0
    {
      inner := new EventFd();
    }

    method Wakeup() returns (r: Result<(), IoError>)
      requires ValidCounter(inner.counter)
      modifies inner
      ensures r == Ok(()) && inner.counter == Signal(old(inner.counter))
      ensures inner.counter > 0
      ensures inner.counter == if old(inner.counter) == 0xFFFF_FFFF_FFFF_FFFE then old(inner.counter)
                               else old(inner.counter) + 1
    {
      var w := inner.Write(1);
      match w {
        case Ok(_) => r := Ok(());
        case Err(e) =>
          if e == WouldBlock {
            r := Ok(());
          } else {
            r := Err(e);
          }
      }
    }

    method Finish() returns (r: Result<(), IoError>)
      modifies inner
      ensures r == Ok(()) && inner.counter == 0
    {
      var n := inner.Read();
      match n {
        case Ok(_) => r := Ok(());
        case Err(e) =>
          if e == WouldBlock {
            r := Ok(());
          } else {
            r := Err(e);
          }
      }
    }

    method SetReadiness(ready: Ready) returns (r: Result<(), IoError>)
      requires ValidCounter(inner.counter)
      modifies inner
      ensures r == Ok(()) && inner.counter == SetTo(old(inner.counter), ready)
      ensures ready == READABLE || ready == WRITABLE ==>
        && inner.counter > 0
        && inner.counter == if old(inner.counter) == 0xFFFF_FFFF_FFFF_FFFE then old(inner.counter)
                            else old(inner.counter) + 1
      ensures ready == EMPTY ==> inner.counter == 0
      ensures ready != READABLE && ready != WRITABLE && ready != EMPTY ==> inner.counter == old(inner.counter)
    {
      r := Ok(());
      if ready == READABLE || ready == WRITABLE {
        r := Wakeup();
        if r.Err? {
          return;
        }
      }
      if ready == EMPTY {
        r := Finish();
      }
    }
  }
}
