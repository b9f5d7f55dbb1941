/**
 The growing buffer that downloads and messages are received into
 (`CURLBuffer` and `SimpleCurl::writeFunc` in `src/curl.cpp`).
 */
module CurlBuffer {

  const SMALL := 256

  class Buffer {
    var buffer: array?<char>
    var length: nat
    var capacity: nat

    ghost predicate Valid()
      reads this
    {
      && (buffer == null ==> length == 0 && capacity == 0)
      && (buffer != null ==> buffer.Length == capacity && length <= capacity)
    }

    /** What has been received so far. */
    ghost function Contents(): string
      reads this, buffer
      requires Valid()
    {
      if buffer == null then "" else buffer[..length]
    }

    constructor ()
      ensures Valid() && buffer == null && Contents() == ""
    {
      buffer, length, capacity := null, 0, 0;
    }

    /** A zeroed buffer for `totalBytes` or more, a large one with some to spare.  The
        length is left as it is, so that a buffer in use may come to be shorter. */
    method Init(totalBytes: nat)
      requires Valid()
      modifies this`buffer, this`capacity
      ensures buffer != null && fresh(buffer) && buffer.Length == capacity
      ensures capacity == if totalBytes > 256 then totalBytes + 256 else 256
      ensures (Valid() <==> length <= capacity) && (length == 0 ==> Contents() == "")
      ensures forall k :: 0 <= k < capacity ==> buffer[k] == '\0'
    {
      capacity := if totalBytes > SMALL then totalBytes + SMALL else SMALL;
      buffer := new char[capacity](i => '\0');
    }

    /** Room for `totalBytes` more, the contents kept. */
    method Extend(totalBytes: nat)
      requires Valid() && buffer != null
      modifies this`buffer, this`capacity
      ensures Valid() && buffer != null && fresh(buffer) && Contents() == old(Contents())
      ensures length + totalBytes <= capacity
      ensures capacity == if 2 * old(capacity) < length + totalBytes then old(capacity) + totalBytes + 1
                          else 2 * old(capacity)
      ensures forall k :: length <= k < capacity ==> buffer[k] == '\0'
    {
      var oldBuffer := buffer;
      var newCapacity := capacity * 2;
      if newCapacity < length + totalBytes {
        newCapacity := capacity + totalBytes + 1;
      }
      buffer := new char[newCapacity](i => '\0');
      capacity := newCapacity;
      Copy(oldBuffer[..length], 0);
      assert buffer[..length] == oldBuffer[..length];
    }

    /** `memcpy` into the buffer. */
    method Copy(data: string, start: nat)
      requires Valid() && buffer != null && start + |data| <= capacity
      modifies buffer
      ensures buffer[start..start + |data|] == data
      ensures forall k :: 0 <= k < start || start + |data| <= k < capacity ==> buffer[k] == old(buffer[k])
    {
      forall k | 0 <= k < |data| {
        buffer[start + k] := data[k];
      }
    }

    /** `writeFunc`: the received bytes are appended, whatever room there was. */
    method WriteFunc(data: string) returns (taken: nat)
      requires Valid()
      modifies this, buffer
      ensures Valid() && Contents() == old(Contents()) + data && taken == |data|
      ensures buffer == old(buffer) || fresh(buffer)
    {
      if buffer == null {
        Init(|data|);
      } else if length + |data| > capacity {
        Extend(|data|);
      }
      ghost var before := buffer[..length];
      Copy(data, length);
      assert buffer[..length] == before;
      length := length + |data|;
      assert buffer[..length] == before + data;
      taken := |data|;
    }
  }
}
