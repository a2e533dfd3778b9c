/** A zeroizing buffer. */
module Secrets {
  import opened Prelude

  class SecretBytes {
    const buf: array<byte>

    /** `bytes(secret)`. */
    ghost function Content(): (b: Bytes)
      reads buf
      ensures |b| == buf.Length
    {
      buf[..]
    }

    /** The copy `bytearray(value)`: the new buffer shares nothing with what it was made from. */
    constructor Copy(value: Bytes)
      ensures fresh(buf) && Content() == value
    {
      buf := new byte[|value|](i requires 0 <= i < |value| => value[i]);
    }

    /** `SecretBytes(value)`, which refuses an empty value. */
    static method Make(value: Bytes) returns (r: Result<SecretBytes>)
      ensures r.Ok? <==> value != []
      ensures r.Err? ==> r.error == ValueError
      ensures r.Ok? ==> fresh(r.value) && fresh(r.value.buf) && r.value.Content() == value
    {
      if |value| == 0 {
        return Err(ValueError);
      }
      var s := new SecretBytes.Copy(value);
      r := Ok(s);
    }

    method ToBytes() returns (b: Bytes)
      ensures b == Content()
    {
      b := buf[..];
    }

    /** Overwrite the buffer in place, keeping its length. */
    method Zeroize()
      modifies buf
      ensures Content() == Zeros(buf.Length)
    {
      for i := 0 to buf.Length
        invariant forall k :: 0 <= k < i ==> buf[k] == 0
      {
        buf[i] := 0;
      }
    }
  }
}
