/** The item header and its data bytes, as one chunk of a slab. */
module Items {
  import opened Bytes

  type Key = seq<Byte>

  const ITEM_SIZE: nat := 24
  const UINT16: nat := 0x1_0000
  const UINT32: nat := 0x1_0000_0000

  class Item {
    var word0: object?     // owning slab while live, next free chunk while free
    var keyLen: nat
    var flags: nat
    var dataSize: nat
    var valueLen: nat
    var expireAt: nat
    var data: seq<Byte>    // the bytes behind the header, up to the end of the chunk

    const room: nat             // how many there are
    ghost const owner: object?  // the size class of the slab whose memory holds this chunk
    ghost const slab: object?   // that slab
    ghost const index: nat      // and the chunk's position there

    constructor (room: nat, ghost owner: object?, ghost slab: object?, ghost index: nat)
      ensures |data| == room && this.room == room && this.owner == owner && this.slab == slab && this.index == index
    {
      word0, keyLen, flags, dataSize, valueLen, expireAt := null, 0, 0, 0, 0, 0;
      data := seq(room, _ => 0);
      this.room, this.owner, this.slab, this.index := room, owner, slab, index;
    }

    function Key(): Key
      requires keyLen <= |data|
      reads this`keyLen, this`data
    {
      data[..keyLen]
    }

    function Value(): seq<Byte>
      requires keyLen + valueLen <= |data|
      reads this`keyLen, this`valueLen, this`data
    {
      data[keyLen..keyLen + valueLen]
    }

    predicate KeyMatches(key: Key)
      requires keyLen <= |data|
      reads this`keyLen, this`data
      ensures KeyMatches(key) <==> Key() == key
    {
      |key| == keyLen && data[..|key|] == key
    }

    // Both lengths are stored in narrow fields; the bytes are copied in full.
    method SetKey(key: Key)
      requires |key| <= |data|
      modifies this`keyLen, this`data
      ensures keyLen == |key| % UINT16
      ensures data == key + old(data)[|key|..]
    {
      keyLen := |key| % UINT16;
      data := key + data[|key|..];
    }

    method SetValue(value: seq<Byte>)
      requires keyLen + |value| <= |data|
      modifies this`valueLen, this`data
      ensures valueLen == |value| % UINT32
      ensures data == old(data)[..keyLen] + value + old(data)[keyLen + |value|..]
    {
      valueLen := |value| % UINT32;
      data := data[..keyLen] + value + data[keyLen + |value|..];
    }
  }
}
