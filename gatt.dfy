/**
 * The firmware's view of the BLE GATT server: services with a reserved range
 * of attribute handles, characteristics whose value can be set, and the radio
 * coprocessor that receives those value updates.
 */
module Gatt {
  import opened Wrappers
  import opened Bytes

  /** A GATT service: its handle and the number of attribute handles reserved for it. */
  datatype Service = Service(handle: uint16, maxNumAttributes: byte)

  /** The reserved range ends within the 16-bit handle space, so the `u16` sum in `contains_handle` does not overflow. */
  predicate NoOverflow(s: Service)
  {
    s.handle + s.maxNumAttributes <= 0xFFFF
  }

  /**
   * `Service::contains_handle`: whether the handle lies in the range reserved
   * for the service, so that it cannot belong to any other service.
   */
  function ContainsHandle(s: Service, handle: uint16): (r: bool)
    requires NoOverflow(s)
    ensures r ==> s.maxNumAttributes > 0
    ensures r <==> handle in HandleRange(s.handle, s.maxNumAttributes)
  {
    HandleRangeMembers(s.handle, s.maxNumAttributes, handle);
    var value := handle;
    var serviceHandle := s.handle;
    serviceHandle <= value && value < serviceHandle + s.maxNumAttributes
  }

  /**
   * The handles `first`, `first + 1`, ... allotted one by one, `count` of
   * them: a reference definition of the range `ContainsHandle` tests (the
   * firmware builds no such list).
   */
  function HandleRange(first: int, count: nat): (hs: seq<int>)
    ensures |hs| == count
    decreases count
  {
    if count == 0 then [] else [first] + HandleRange(first + 1, count - 1)
  }

  lemma {:induction false} HandleRangeMembers(first: int, count: nat, h: int)
    ensures h in HandleRange(first, count) <==> first <= h < first + count
    decreases count
  {
    if count > 0 {
      HandleRangeMembers(first + 1, count - 1, h);
    }
  }

  /** Services laid out one after another never both contain a handle. */
  lemma ContainsHandleDisjoint(s1: Service, s2: Service, handle: uint16)
    requires NoOverflow(s1) && NoOverflow(s2)
    requires s1.handle + s1.maxNumAttributes <= s2.handle
    ensures !(ContainsHandle(s1, handle) && ContainsHandle(s2, handle))
  {
  }

  /** A characteristic: its service, its handle and the capacity of its value. */
  datatype Characteristic = Characteristic(service: uint16, characteristic: uint16, maxLen: nat)

  /** The parameters of the coprocessor's "update characteristic value" command. */
  datatype ValueUpdate = ValueUpdate(serviceHandle: uint16, characteristicHandle: uint16, offset: nat, value: seq<byte>)

  /** A GATT attribute-modified event, reduced to the handle written and the bytes written. */
  datatype GattAttributeModified = GattAttributeModified(attrHandle: uint16, data: seq<byte>)

  /**
   * The radio coprocessor as a sink for characteristic values: it only
   * records, in order, the value updates it has been sent.
   */
  class CharacteristicValueSink {
    ghost var updates: seq<ValueUpdate>

    constructor ()
      ensures updates == []
    {
      updates := [];
    }

    method UpdateCharacteristicValue(u: ValueUpdate)
      modifies this
      ensures updates == old(updates) + [u]
    {
      updates := updates + [u];
    }
  }

  /**
   * `Characteristic::set_value`: a value longer than the characteristic's
   * capacity is refused before anything is sent; otherwise the value is sent
   * whole, at offset 0, to this characteristic.
   */
  method SetValue(c: Characteristic, value: seq<byte>, sink: CharacteristicValueSink) returns (r: Result<(), ()>)
    modifies sink
    ensures |value| > c.maxLen ==> r == Err(()) && sink.updates == old(sink.updates)
    ensures |value| <= c.maxLen ==>
              r == Ok(()) && sink.updates == old(sink.updates) + [ValueUpdate(c.service, c.characteristic, 0, value)]
  {
    if |value| > c.maxLen {
      return Err(());
    }
    sink.UpdateCharacteristicValue(ValueUpdate(c.service, c.characteristic, 0, value));
    return Ok(());
  }
}
