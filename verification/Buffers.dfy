/**
  The prependable growable buffer of buffer.h: one array with a read and a write index that
  compacts or reallocates to make room and moves back to the reserve when it is drained.
*/
module Buffers {
  import opened ByteOrder
  import opened Memory
  import opened BufferModel

  lemma {:induction false} ZeroByte()
    ensures Fits(0, 1) && Network(0, 1) == [0]
  {
    assert Be(0, 1) == Be(0, 0) + [0];
  }

  class Buffer {
    var storage: array<Byte>
    var capacity: nat
    var readIndex: nat
    var writeIndex: nat
    var reservedPrependSize: nat
    /** The bytes that reallocations have copied so far; the capacity has paid for them. */
    ghost var copied: nat

    ghost predicate Valid()
      reads this
    {
      readIndex <= writeIndex <= capacity == storage.Length && reservedPrependSize <= capacity
      && copied <= capacity
    }

    /** The unread bytes. */
    function Contents(): (c: seq<Byte>)
      requires Valid()
      reads this, storage
    {
      storage[readIndex..writeIndex]
    }

    function View(): (b: Image)
      requires Valid()
      reads this, storage
      ensures b.Valid()
    {
      Image(capacity, reservedPrependSize, readIndex, Contents())
    }

    constructor (initialSize: nat := INITIAL_SIZE, reservedPrependSize: nat := CHEAP_PREPEND)
      ensures Valid() && fresh(storage)
      ensures capacity == reservedPrependSize + initialSize
      ensures readIndex == writeIndex == reservedPrependSize && this.reservedPrependSize == reservedPrependSize
      ensures View() == Fresh(initialSize, reservedPrependSize) && copied == 0
    {
      this.capacity := reservedPrependSize + initialSize;
      this.readIndex := reservedPrependSize;
      this.writeIndex := reservedPrependSize;
      this.reservedPrependSize := reservedPrependSize;
      this.copied := 0;
      this.storage := new Byte[reservedPrependSize + initialSize];
      new;
      assert Contents() == [];
    }

    // ---------- observers ----------

    function Length(): (n: nat)
      requires Valid()
      reads this, storage
      ensures n == |Contents()|
    {
      writeIndex - readIndex
    }

    function WritableBytes(): (n: nat)
      requires Valid()
      reads this, storage
      ensures n == View().Writable()
    {
      capacity - writeIndex
    }

    function PrependableBytes(): nat
      reads this
    {
      readIndex
    }

    /** The slice of unread bytes; here a copy, so later changes to the storage do not show. */
    method ToSlice() returns (s: seq<Byte>)
      requires Valid()
      ensures s == Contents()
    {
      s := storage[readIndex..writeIndex];
    }

    // ---------- indices ----------

    method Swap(rhs: Buffer)
      requires Valid() && rhs.Valid()
      modifies this, rhs
      ensures Valid() && rhs.Valid()
      ensures storage == old(rhs.storage) && rhs.storage == old(storage)
      ensures View() == old(rhs.View()) && rhs.View() == old(View())
      ensures copied == old(rhs.copied) && rhs.copied == old(copied)
    {
      storage, rhs.storage := rhs.storage, storage;
      capacity, rhs.capacity := rhs.capacity, capacity;
      readIndex, rhs.readIndex := rhs.readIndex, readIndex;
      writeIndex, rhs.writeIndex := rhs.writeIndex, writeIndex;
      reservedPrependSize, rhs.reservedPrependSize := rhs.reservedPrependSize, reservedPrependSize;
      copied, rhs.copied := rhs.copied, copied;
    }

    method Skip(len: nat)
      requires Valid()
      modifies this`readIndex, this`writeIndex
      ensures Valid()
      ensures if len < |old(Contents())| then readIndex == old(readIndex) + len && writeIndex == old(writeIndex)
              else readIndex == writeIndex == reservedPrependSize
      ensures View() == Skipped(old(View()), len)
    {
      if len < Length() {
        readIndex := readIndex + len;
      } else {
        Reset();
      }
    }

    method Retrieve(len: nat)
      requires Valid()
      modifies this`readIndex, this`writeIndex
      ensures Valid()
      ensures if len < |old(Contents())| then readIndex == old(readIndex) + len && writeIndex == old(writeIndex)
              else readIndex == writeIndex == reservedPrependSize
      ensures View() == Skipped(old(View()), len)
    {
      Skip(len);
    }

    method Truncate(n: nat)
      requires Valid()
      modifies this`readIndex, this`writeIndex
      ensures Valid()
      ensures if n == 0 then readIndex == writeIndex == reservedPrependSize
              else readIndex == old(readIndex) && Contents() == old(Contents())[..Min(n, |old(Contents())|)]
      ensures View() == Truncated(old(View()), n)
    {
      if n == 0 {
        readIndex := reservedPrependSize;
        writeIndex := reservedPrependSize;
      } else if writeIndex > readIndex + n {
        writeIndex := readIndex + n;
      }
    }

    method Reset()
      requires Valid()
      modifies this`readIndex, this`writeIndex
      ensures Valid()
      ensures readIndex == writeIndex == reservedPrependSize
      ensures View() == Emptied(old(View()))
    {
      Truncate(0);
    }

    method UnwriteBytes(n: nat)
      requires Valid() && n <= Length()
      modifies this`writeIndex
      ensures Valid()
      ensures writeIndex == old(writeIndex) - n
      ensures View() == Unwritten(old(View()), n)
    {
      writeIndex := writeIndex - n;
    }

    /** Takes in bytes that the caller has already put into the free space. */
    method WriteBytes(n: nat)
      requires Valid() && n <= WritableBytes()
      modifies this`writeIndex
      ensures Valid()
      ensures writeIndex == old(writeIndex) + n
      ensures View() == TakenIn(old(View()), old(storage[writeIndex..writeIndex + n]))
    {
      writeIndex := writeIndex + n;
    }

    /** Moves the read index back over bytes already read, or over the reserve. */
    method UnreadBytes(n: nat)
      requires Valid() && n < readIndex
      modifies this`readIndex
      ensures Valid()
      ensures readIndex == old(readIndex) - n
      ensures View() == Prepended(old(View()), old(storage[readIndex - n..readIndex]))
    {
      readIndex := readIndex - n;
    }

    // ---------- making room ----------

    method Grow(len: nat)
      requires Valid()
      requires WritableBytes() < len || Reallocates(View(), len)
      modifies this, storage
      ensures Valid()
      ensures storage == old(storage) || fresh(storage)
      ensures Contents() == old(Contents()) && readIndex == reservedPrependSize == old(reservedPrependSize)
      ensures capacity == if old(capacity - writeIndex + readIndex < len + reservedPrependSize)
                          then 2 * old(capacity) + len else old(capacity)
      ensures View() == Grown(old(View()), len)
      ensures copied == old(copied) + if old(Reallocates(View(), len)) then |old(Contents())| else 0
      ensures WritableBytes() >= len
    {
      if WritableBytes() + PrependableBytes() < len + reservedPrependSize {
        Reallocate(capacity * 2 + len);
      } else {
        assert reservedPrependSize < readIndex;
        Compact();
        assert WritableBytes() >= len;
      }
    }

    /** The first branch of grow: new storage, with the contents behind the reserve. */
    method Reallocate(n: nat)
      requires Valid() && capacity + Length() <= n && reservedPrependSize + Length() <= n
      modifies this
      ensures Valid() && fresh(storage)
      ensures capacity == n && readIndex == reservedPrependSize == old(reservedPrependSize)
      ensures View() == Image(n, old(reservedPrependSize), old(reservedPrependSize), old(Contents()))
      ensures copied == old(copied) + |old(Contents())|
    {
      var m := Length();
      var d := new Byte[n];
      Copy(d, reservedPrependSize, storage[readIndex..writeIndex]);
      copied := copied + m;
      writeIndex := m + reservedPrependSize;
      readIndex := reservedPrependSize;
      capacity := n;
      storage := d;
    }

    /** The second branch of grow: the contents move to the front, behind the reserve. */
    method Compact()
      requires Valid() && reservedPrependSize < readIndex
      modifies this`readIndex, this`writeIndex, storage
      ensures Valid()
      ensures Contents() == old(Contents()) && readIndex == reservedPrependSize
      ensures View() == old(View()).(read := old(reservedPrependSize))
    {
      var readable := Length();
      Copy(storage, reservedPrependSize, storage[readIndex..writeIndex]);
      readIndex := reservedPrependSize;
      writeIndex := readIndex + readable;
      assert readable == Length();
    }

    method Reserve(len: nat)
      requires Valid()
      modifies this, storage
      ensures Valid()
      ensures storage == old(storage) || fresh(storage)
      ensures Contents() == old(Contents()) && reservedPrependSize == old(reservedPrependSize)
      ensures capacity == if old(capacity) >= len + reservedPrependSize then old(capacity)
                          else 2 * old(capacity) + len + reservedPrependSize
      ensures View() == Reserved(old(View()), len)
      ensures copied == old(copied + Copied(View(), Op.Reserve(len)))
    {
      if capacity >= len + reservedPrependSize {
        return;
      }
      ReserveReallocates(View(), len);
      Grow(len + reservedPrependSize);
    }

    method EnsureWritableBytes(len: nat)
      requires Valid()
      modifies this, storage
      ensures Valid()
      ensures storage == old(storage) || fresh(storage)
      ensures Contents() == old(Contents()) && reservedPrependSize == old(reservedPrependSize)
      ensures readIndex == if old(capacity - writeIndex) >= len then old(readIndex) else reservedPrependSize
      ensures View() == Ensured(old(View()), len)
      ensures copied == old(copied + Copied(View(), Op.EnsureWritable(len)))
      ensures WritableBytes() >= len
    {
      if WritableBytes() < len {
        Grow(len);
      }
      assert WritableBytes() >= len;
    }

    // ---------- writing ----------

    method Write(d: seq<Byte>)
      requires Valid()
      modifies this, storage
      ensures Valid()
      ensures storage == old(storage) || fresh(storage)
      ensures View() == Written(old(View()), d)
      ensures copied == old(copied + Copied(View(), Op.Write(d)))
      ensures Contents() == old(Contents()) + d && reservedPrependSize == old(reservedPrependSize)
      ensures readIndex == if old(capacity - writeIndex) >= |d| then old(readIndex) else reservedPrependSize
    {
      EnsureWritableBytes(|d|);
      OverlayBefore(storage[..], writeIndex, d, readIndex);
      Copy(storage, writeIndex, d);
      assert writeIndex + |d| <= capacity;
      writeIndex := writeIndex + |d|;
    }

    method Prepend(d: seq<Byte>)
      requires Valid() && |d| <= PrependableBytes()
      modifies this`readIndex, storage
      ensures Valid()
      ensures Contents() == d + old(Contents()) && readIndex == old(readIndex) - |d|
      ensures View() == Prepended(old(View()), d)
    {
      readIndex := readIndex - |d|;
      OverlayBehind(storage[..], readIndex, d, writeIndex);
      Copy(storage, readIndex, d);
    }

    /** Leaves a zero byte just past the contents. */
    method ToText()
      requires Valid()
      modifies this, storage
      ensures Valid()
      ensures storage == old(storage) || fresh(storage)
      ensures View() == Apply(old(View()), Op.ToText)
      ensures copied == old(copied + Copied(View(), Op.ToText))
      ensures Contents() == old(Contents()) && reservedPrependSize == old(reservedPrependSize)
      ensures writeIndex < capacity && storage[writeIndex] == 0
    {
      hide Network, Written;
      ghost var c := Contents();
      ZeroByte();
      AppendInt8(0);
      assert Contents() == c + [0] && storage[writeIndex - 1] == Contents()[|c|];
      UnwriteBytes(1);
      assert Contents() == c;
    }

    method Shrink(reserve: nat)
      requires Valid()
      modifies this
      ensures Valid() && fresh(storage)
      ensures View() == Shrunk(old(View()), reserve) && copied == 0
      ensures Contents() == old(Contents())
      ensures WritableBytes() == reserve && PrependableBytes() == reservedPrependSize == 8
    {
      var other := new Buffer(Length() + reserve);
      var s := ToSlice();
      other.Write(s);
      assert other.Contents() == s;
      Swap(other);
    }

    // ---------- reading ----------

    /** Exactly the prefix it removes; unless that drains the buffer, the bytes stay behind the read index. */
    method Next(len: nat) returns (s: seq<Byte>)
      requires Valid()
      modifies this`readIndex, this`writeIndex
      ensures Valid()
      ensures if len < |old(Contents())| then readIndex == old(readIndex) + len && writeIndex == old(writeIndex)
              else readIndex == writeIndex == reservedPrependSize
      ensures View() == Skipped(old(View()), len)
      ensures s == Taken(old(Contents()), Op.Next(len)) == old(Contents())[..Min(len, |old(Contents())|)]
      ensures s + Contents() == old(Contents())
      ensures len < |old(Contents())| ==> readIndex >= len && storage[readIndex - len..readIndex] == s
    {
      ghost var c := Contents();
      if len < Length() {
        s := storage[readIndex..readIndex + len];
        assert s == c[..len];
        readIndex := readIndex + len;
        assert Contents() == c[len..];
        TakeDrop(c, len);
        return;
      }
      s := NextAll();
      assert c[..|c|] == c && s + [] == c;
    }

    method NextAll() returns (s: seq<Byte>)
      requires Valid()
      modifies this`readIndex, this`writeIndex
      ensures Valid()
      ensures readIndex == writeIndex == reservedPrependSize
      ensures View() == Emptied(old(View()))
      ensures s == old(Contents())
    {
      s := ToSlice();
      Reset();
    }

    method ReadByte() returns (b: Byte)
      requires Valid() && Length() >= 1
      modifies this`readIndex
      ensures Valid()
      ensures readIndex == old(readIndex) + 1
      ensures View() == ByteRead(old(View()))
      ensures b == old(Contents())[0]
    {
      b := storage[readIndex];
      readIndex := readIndex + 1;
    }

    // ---------- typed values in network order ----------

    method AppendInt64(x: Int64)
      requires Valid()
      modifies this, storage
      ensures Valid()
      ensures storage == old(storage) || fresh(storage)
      ensures View() == Written(old(View()), Network(x, 8))
      ensures copied == old(copied + Copied(View(), Op.Write(Network(x, 8))))
      ensures Contents() == old(Contents()) + Network(x, 8) && reservedPrependSize == old(reservedPrependSize)
    {
      Powers();
      var be := Swap64(ToUnsigned(x, 8));
      Swap64IsSwapped(ToUnsigned(x, 8));
      SwappedInMemory(ToUnsigned(x, 8), 8);
      Write(Le(be, 8));
    }

    method AppendInt32(x: Int32)
      requires Valid()
      modifies this, storage
      ensures Valid()
      ensures storage == old(storage) || fresh(storage)
      ensures View() == Written(old(View()), Network(x, 4))
      ensures copied == old(copied + Copied(View(), Op.Write(Network(x, 4))))
      ensures Contents() == old(Contents()) + Network(x, 4) && reservedPrependSize == old(reservedPrependSize)
    {
      Powers();
      var be32 := Swapped(ToUnsigned(x, 4), 4);
      SwappedInMemory(ToUnsigned(x, 4), 4);
      Write(Le(be32, 4));
    }

    method AppendInt16(x: Int16)
      requires Valid()
      modifies this, storage
      ensures Valid()
      ensures storage == old(storage) || fresh(storage)
      ensures View() == Written(old(View()), Network(x, 2))
      ensures copied == old(copied + Copied(View(), Op.Write(Network(x, 2))))
      ensures Contents() == old(Contents()) + Network(x, 2) && reservedPrependSize == old(reservedPrependSize)
    {
      Powers();
      var be16 := Swapped(ToUnsigned(x, 2), 2);
      SwappedInMemory(ToUnsigned(x, 2), 2);
      Write(Le(be16, 2));
    }

    method AppendInt8(x: Int8)
      requires Valid()
      modifies this, storage
      ensures Valid()
      ensures storage == old(storage) || fresh(storage)
      ensures View() == Written(old(View()), Network(x, 1))
      ensures copied == old(copied + Copied(View(), Op.Write(Network(x, 1))))
      ensures Contents() == old(Contents()) + Network(x, 1) && reservedPrependSize == old(reservedPrependSize)
    {
      Powers();
      SwappedInMemory(ToUnsigned(x, 1), 1);
      Write(Le(ToUnsigned(x, 1), 1));
    }

    method PrependInt64(x: Int64)
      requires Valid() && 8 <= PrependableBytes()
      modifies this`readIndex, storage
      ensures Valid()
      ensures View() == Prepended(old(View()), Network(x, 8))
    {
      Powers();
      var be := Swap64(ToUnsigned(x, 8));
      Swap64IsSwapped(ToUnsigned(x, 8));
      SwappedInMemory(ToUnsigned(x, 8), 8);
      Prepend(Le(be, 8));
    }

    method PrependInt32(x: Int32)
      requires Valid() && 4 <= PrependableBytes()
      modifies this`readIndex, storage
      ensures Valid()
      ensures View() == Prepended(old(View()), Network(x, 4))
    {
      Powers();
      var be32 := Swapped(ToUnsigned(x, 4), 4);
      SwappedInMemory(ToUnsigned(x, 4), 4);
      Prepend(Le(be32, 4));
    }

    method PrependInt16(x: Int16)
      requires Valid() && 2 <= PrependableBytes()
      modifies this`readIndex, storage
      ensures Valid()
      ensures View() == Prepended(old(View()), Network(x, 2))
    {
      Powers();
      var be16 := Swapped(ToUnsigned(x, 2), 2);
      SwappedInMemory(ToUnsigned(x, 2), 2);
      Prepend(Le(be16, 2));
    }

    method PrependInt8(x: Int8)
      requires Valid() && 1 <= PrependableBytes()
      modifies this`readIndex, storage
      ensures Valid()
      ensures View() == Prepended(old(View()), Network(x, 1))
    {
      Powers();
      SwappedInMemory(ToUnsigned(x, 1), 1);
      Prepend(Le(ToUnsigned(x, 1), 1));
    }

    method PeekInt64() returns (x: Int64)
      requires Valid() && Length() >= 8
      ensures x == FromNetwork(Contents()[..8])
    {
      Powers();
      var be64 := FromLe(storage[readIndex..readIndex + 8]);
      Swap64IsSwapped(be64);
      SwappedFromMemory(storage[readIndex..readIndex + 8]);
      assert storage[readIndex..readIndex + 8] == Contents()[..8];
      x := ToSigned(Swap64(be64), 8);
    }

    method ReadInt64() returns (x: Int64)
      requires Valid() && Length() >= 8
      modifies this`readIndex, this`writeIndex
      ensures Valid()
      ensures View() == Skipped(old(View()), 8) && Contents() == old(Contents())[8..]
      ensures x == FromNetwork(old(Contents())[..8])
    {
      x := PeekInt64();
      Skip(8);
    }

    method PeekInt32() returns (x: Int32)
      requires Valid() && Length() >= 4
      ensures x == FromNetwork(Contents()[..4])
    {
      Powers();
      var be32 := FromLe(storage[readIndex..readIndex + 4]);
      SwappedFromMemory(storage[readIndex..readIndex + 4]);
      assert storage[readIndex..readIndex + 4] == Contents()[..4];
      x := ToSigned(Swapped(be32, 4), 4);
    }

    method ReadInt32() returns (x: Int32)
      requires Valid() && Length() >= 4
      modifies this`readIndex, this`writeIndex
      ensures Valid()
      ensures View() == Skipped(old(View()), 4) && Contents() == old(Contents())[4..]
      ensures x == FromNetwork(old(Contents())[..4])
    {
      x := PeekInt32();
      Skip(4);
    }

    method PeekInt16() returns (x: Int16)
      requires Valid() && Length() >= 2
      ensures x == FromNetwork(Contents()[..2])
    {
      Powers();
      var be16 := FromLe(storage[readIndex..readIndex + 2]);
      SwappedFromMemory(storage[readIndex..readIndex + 2]);
      assert storage[readIndex..readIndex + 2] == Contents()[..2];
      x := ToSigned(Swapped(be16, 2), 2);
    }

    method ReadInt16() returns (x: Int16)
      requires Valid() && Length() >= 2
      modifies this`readIndex, this`writeIndex
      ensures Valid()
      ensures View() == Skipped(old(View()), 2) && Contents() == old(Contents())[2..]
      ensures x == FromNetwork(old(Contents())[..2])
    {
      x := PeekInt16();
      Skip(2);
    }

    method PeekInt8() returns (x: Int8)
      requires Valid() && Length() >= 1
      ensures x == FromNetwork(Contents()[..1])
    {
      Powers();
      var b := storage[readIndex];
      assert [b] == Contents()[..1] && FromBe([b]) == 256 * FromBe([][..0]) + b;
      x := ToSigned(b, 1);
    }

    method ReadInt8() returns (x: Int8)
      requires Valid() && Length() >= 1
      modifies this`readIndex, this`writeIndex
      ensures Valid()
      ensures View() == Skipped(old(View()), 1) && Contents() == old(Contents())[1..]
      ensures x == FromNetwork(old(Contents())[..1])
    {
      x := PeekInt8();
      Skip(1);
    }

    // ---------- searching ----------

    /** The first CR LF at or behind an offset into the unread bytes, or -1. */
    method FindCRLF(start: nat := 0) returns (r: int)
      requires Valid() && start <= Length()
      ensures r == -1 || (start <= r < Length() - 1 && Contents()[r] == 13 && Contents()[r + 1] == 10)
      ensures forall i: nat :: start <= i < Length() - 1 && Contents()[i] == 13 && Contents()[i + 1] == 10 ==>
                0 <= r <= i
    {
      var i := readIndex + start;
      while i + 2 <= writeIndex
        invariant readIndex + start <= i <= writeIndex
        invariant forall j: nat :: start <= j < i - readIndex && j < Length() - 1 ==>
                    !(Contents()[j] == 13 && Contents()[j + 1] == 10)
      {
        if storage[i] == 13 && storage[i + 1] == 10 {
          return i - readIndex;
        }
        i := i + 1;
      }
      r := -1;
    }

    /** The first LF at or behind an offset into the unread bytes, or -1. */
    method FindEOL(start: nat := 0) returns (r: int)
      requires Valid() && start <= Length()
      ensures r == -1 || (start <= r < Length() && Contents()[r] == 10)
      ensures forall i: nat :: start <= i < Length() && Contents()[i] == 10 ==> 0 <= r <= i
    {
      var i := readIndex + start;
      while i < writeIndex
        invariant readIndex + start <= i <= writeIndex
        invariant forall j: nat :: start <= j < i - readIndex ==> Contents()[j] != 10
      {
        if storage[i] == 10 {
          return i - readIndex;
        }
        i := i + 1;
      }
      r := -1;
    }
  }
}
