/**
 * One slot of the local reference table (`LrtEntry`): the reference it holds
 * and the serial number that tells successive occupants of the slot apart.
 */
module LrtEntries {
  import opened Base

  /**
   * The exclusive bound of slot serial numbers. Its value is fixed in
   * local_reference_table.h, which is not part of this model, so it is left
   * unconstrained here: every property below holds whatever that value is.
   */
  const kLRTMaxSerial: u32

  /** `++x` on a `uint32_t`: wraps from 2^32 - 1 to 0. */
  function Increment32(s: u32): (r: u32)
    ensures r == (s + 1) % 0x1_0000_0000
  {
    if s == U32_MAX then 0 else s + 1
  }

  /**
   * The serial that `LrtEntry::Add` leaves in a slot whose serial was `s`.
   * It stays inside `[0, kLRTMaxSerial)` once there, and it comes back to
   * the same value only when the bound leaves it no room to move.
   */
  function NextSerial(s: u32): (r: u32)
    ensures s < kLRTMaxSerial ==> r < kLRTMaxSerial
    ensures r == s <==> kLRTMaxSerial == 1 && s == 0
  {
    var bumped := Increment32(s);
    if bumped == kLRTMaxSerial then 0 else bumped
  }

  /** The serial of a slot that started at `s` and was then populated `k` times. */
  function SerialAfter(s: u32, k: nat): u32
    decreases k
  {
    if k == 0 then s else NextSerial(SerialAfter(s, k - 1))
  }

  /** Populating a slot `j` times and then `k` more is populating it `j + k` times. */
  lemma {:induction false} SerialAfterSplit(s: u32, j: nat, k: nat)
    ensures SerialAfter(s, j + k) == SerialAfter(SerialAfter(s, j), k)
  {
    if k > 0 {
      SerialAfterSplit(s, j, k - 1);
    }
  }

  /** Below the bound, each `Add` counts the serial up by one. */
  lemma {:induction false} SerialAfterCountsUp(s: u32, k: nat)
    requires s + k < kLRTMaxSerial
    ensures SerialAfter(s, k) == s + k
  {
    if k > 0 {
      SerialAfterCountsUp(s, k - 1);
    }
  }

  /**
   * The staleness window of a slot: starting from any serial in range, the
   * next `kLRTMaxSerial - 1` occupants of the slot all get serials different
   * from it, and the occupant after them gets the very same serial again.
   */
  lemma SerialCycle(s: u32)
    requires s < kLRTMaxSerial
    ensures SerialAfter(s, kLRTMaxSerial) == s
    ensures forall k :: 0 < k < kLRTMaxSerial ==> SerialAfter(s, k) != s
  {
    var m := kLRTMaxSerial;
    var toTop := m - 1 - s;
    SerialAfterCountsUp(s, toTop);
    assert SerialAfter(s, toTop + 1) == 0;
    SerialAfterSplit(s, toTop + 1, s);
    SerialAfterCountsUp(0, s);
    forall k | 0 < k < m
      ensures SerialAfter(s, k) != s
    {
      if s + k < m {
        SerialAfterCountsUp(s, k);
      } else {
        SerialAfterSplit(s, toTop + 1, k - toTop - 1);
        SerialAfterCountsUp(0, k - toTop - 1);
      }
    }
  }

  /** Serials repeat with period `kLRTMaxSerial`, whatever the number of `Add`s. */
  lemma SerialPeriodic(s: u32, k: nat)
    requires s < kLRTMaxSerial
    ensures SerialAfter(s, k + kLRTMaxSerial) == SerialAfter(s, k)
  {
    SerialAfterSplit(s, kLRTMaxSerial, k);
    SerialCycle(s);
  }

  /** A table slot; the table's storage is zero-filled, so a slot starts empty with serial 0. */
  class LrtEntry {
    var serial: u32
    var reference: Option<Obj>

    constructor ()
      ensures serial == 0 && reference == None
    {
      serial := 0;
      reference := None;
    }

    /** Populates the slot for a new occupant, advancing the serial. */
    method Add(obj: Option<Obj>)
      modifies this
      ensures serial == NextSerial(old(serial))
      ensures old(serial) < kLRTMaxSerial ==> serial < kLRTMaxSerial
      ensures kLRTMaxSerial > 1 ==> serial != old(serial)
      ensures reference == obj
    {
      serial := Increment32(serial);
      if serial == kLRTMaxSerial {
        serial := 0;
      }
      reference := obj;
    }

    /** Rebinds the slot to another object; the serial, and with it every handle, is kept. */
    method SetReference(obj: Option<Obj>)
      requires serial < kLRTMaxSerial
      modifies this
      ensures reference == obj
      ensures serial == old(serial)
    {
      reference := obj;
    }
  }
}
