/** The string class of include/bz/u8string.h: a short string inside the object or a longer one in a buffer. */
module U8Strings {
  import opened Alignment
  import opened Utf8
  import opened Utf8Reverse
  import opened Utf8Search

  const SHORT_STRING_CAPACITY: nat := 16

  /** `_data_begin`: null, the size of a short string shifted left with the lowest bit set, or a buffer's address. */
  datatype DataBegin = Null | Tagged(word: nat) | Heap(buffer: array<Byte>)

  class U8String {
    var dataBegin: DataBegin
    /** `_data_end` of a string with a buffer, as an offset. */
    var dataEnd: nat
    /** The bytes of `_data_end` and `_alloc_end`, where a short string has its characters. */
    const shortString: array<Byte>

    predicate IsShortString()
      reads this
    {
      !dataBegin.Heap?
    }

    /** The bytes between `_begin_ptr()` and the end of the storage. */
    function Storage(): array<Byte>
      reads this
    {
      if dataBegin.Heap? then dataBegin.buffer else shortString
    }

    function Size(): nat
      reads this
    {
      match dataBegin
      case Null => 0
      case Tagged(word) => word / 2
      case Heap(_) => dataEnd
    }

    /** A short string has at most 16 bytes; a buffer is longer, and its length a power of two. */
    ghost predicate Valid()
      reads this
    {
      && shortString.Length == SHORT_STRING_CAPACITY
      && Size() <= Storage().Length
      && (dataBegin.Tagged? ==> dataBegin.word % 2 == 1)
      && (dataBegin.Heap? ==>
            Storage() != shortString && Storage().Length > SHORT_STRING_CAPACITY && IsPowerOfTwo(Storage().Length))
    }

    ghost function Contents(): seq<Byte>
      requires Valid()
      reads this, Storage()
    {
      Storage()[..Size()]
    }

    constructor ()
      ensures Valid() && fresh(Storage()) && fresh(shortString)
      ensures Contents() == [] && dataBegin.Null?
    {
      dataBegin := Null;
      dataEnd := 0;
      shortString := new Byte[SHORT_STRING_CAPACITY];
    }

    /** Sets the tag of a short string or the end of a longer one. */
    method SetSize(size: nat)
      requires Valid() && size <= Storage().Length
      modifies this
      ensures Valid() && Storage() == old(Storage()) && Size() == size
      ensures Contents() == Storage()[..size]
    {
      if dataBegin.Heap? {
        dataEnd := size;
      } else {
        dataBegin := Tagged(size * 2 + 1);
      }
    }

    /** Writes behind the contents, where there must be room, and moves the end. */
    method WriteAtEnd(bytes: seq<Byte>)
      requires Valid() && Size() + |bytes| <= Storage().Length
      modifies this, Storage()
      ensures Valid() && Storage() == old(Storage())
      ensures Contents() == old(Contents()) + bytes
    {
      var storage, size := Storage(), Size();
      forall i | 0 <= i < |bytes| {
        storage[size + i] := bytes[i];
      }
      SetSize(size + |bytes|);
    }

    /** `_power_of_two_reserve` */
    method PowerOfTwoReserve(capacity: nat)
      requires Valid() && IsPowerOfTwo(capacity) && capacity > SHORT_STRING_CAPACITY && capacity >= Size()
      modifies this
      ensures Valid() && fresh(Storage()) && Storage().Length == capacity && dataBegin.Heap?
      ensures Contents() == old(Contents())
    {
      var storage, size := Storage(), Size();
      var newAlloc := new Byte[capacity];
      forall i | 0 <= i < size {
        newAlloc[i] := storage[i];
      }
      dataBegin := Heap(newAlloc);
      dataEnd := size;
    }

    /** `reserve`: room for `capacity` bytes, in the same storage if it has it. */
    method Reserve(capacity: nat)
      requires Valid()
      modifies this
      ensures Valid() && Storage().Length >= capacity
      ensures if old(Storage()).Length >= capacity then Storage() == old(Storage()) else fresh(Storage())
      ensures old(Storage()).Length < capacity ==>
                IsPowerOfTwo(Storage().Length) && Storage().Length < 2 * capacity
      ensures Contents() == old(Contents())
    {
      if capacity <= Storage().Length {
        return;
      }
      var newCapacity := 1;
      while newCapacity < capacity
        invariant IsPowerOfTwo(newCapacity) && newCapacity < 2 * capacity
        invariant Valid() && capacity > Storage().Length
        invariant Storage() == old(Storage()) && Contents() == old(Contents())
        decreases capacity - newCapacity
      {
        newCapacity := newCapacity * 2;
      }
      PowerOfTwoReserve(newCapacity);
    }

    method Resize(newSize: nat)
      requires Valid()
      modifies this, Storage()
      ensures Valid() && (Storage() == old(Storage()) || fresh(Storage()))
      ensures Contents() == if newSize <= old(Size()) then old(Contents())[..newSize]
                            else old(Contents()) + seq(newSize - old(Size()), _ => 0)
    {
      var currentSize := Size();
      if currentSize >= newSize {
        SetSize(newSize);
      } else {
        Reserve(newSize);
        WriteAtEnd(seq(newSize - currentSize, _ => 0));
      }
    }

    /** `operator +=` on a character; a value of more than 21 bits is not appended. */
    method AppendChar(c: nat)
      requires Valid()
      modifies this, Storage()
      ensures Valid() && (Storage() == old(Storage()) || fresh(Storage()))
      ensures Contents() == old(Contents()) + (if c <= MAX_FOUR_BYTE_CHAR then Encode(c) else [])
    {
      var currentSize := Size();
      if c <= MAX_FOUR_BYTE_CHAR {
        var bytes := Encode(c);
        Reserve(currentSize + |bytes|);
        WriteAtEnd(bytes);
      }
    }

    /** `operator +=` on a string that is not a part of this one. */
    method Append(rhs: seq<Byte>)
      requires Valid()
      modifies this, Storage()
      ensures Valid() && (Storage() == old(Storage()) || fresh(Storage()))
      ensures Contents() == old(Contents()) + rhs
    {
      Reserve(Size() + |rhs|);
      WriteAtEnd(rhs);
    }

    method Clear()
      requires Valid()
      modifies this
      ensures Valid() && Storage() == old(Storage()) && Contents() == []
    {
      SetSize(0);
    }

    /**
     * `erase`, on a string that does not end inside the encoding of `c`: the bytes that match it are gone. On a
     * verified string these are exactly the characters with these bytes, in shortest form the code points `c`.
     */
    method Erase(c: CodePoint)
      requires Valid() && !EndsInside(Contents(), Encode(c))
      modifies this, Storage()
      ensures Valid() && Storage() == old(Storage())
      ensures Contents() == EraseBytes(old(Contents()), Encode(c))
      ensures Verified(old(Contents())) ==> Contents() == Concat(Without(Split(old(Contents())), Encode(c)))
      ensures ShortestForm(old(Contents())) ==> Contents() == EncodeAll(Without(CodePoints(old(Contents())), c))
    {
      ghost var before := Contents();
      var trail := EraseInPlace(Storage(), Size(), c);
      SetSize(trail);
      if Verified(before) {
        ErasedFromVerified(before, c);
        EraseIsWithoutCodePoint(CodePoints(before), c);
      }
    }

    method ReverseContents()
      requires Valid()
      modifies Storage()
      ensures Valid() && Storage() == old(Storage())
      ensures Contents() == Reversed(old(Contents()))
    {
      Reverse(Storage(), Size());
    }

    // ----- copies and moves -----

    /** The construction from a string view, on a string that is null. */
    method InitFromView(other: seq<Byte>)
      requires Valid() && dataBegin.Null?
      modifies this, shortString
      ensures Valid() && (Storage() == shortString || fresh(Storage()))
      ensures Contents() == other
    {
      if |other| == 0 {
      } else if |other| <= SHORT_STRING_CAPACITY {
        WriteAtEnd(other);
      } else {
        Reserve(|other|);
        WriteAtEnd(other);
      }
    }

    /** The part that copy construction and copy assignment share, once this string holds no buffer. */
    method CopyInto(other: U8String)
      requires Valid() && dataBegin.Null? && other.Valid() && other != this
      requires shortString !in {other.shortString, other.Storage()}
      modifies this, shortString
      ensures Valid() && (Storage() == shortString || fresh(Storage()))
      ensures Contents() == other.Contents() == old(other.Contents())
    {
      var size := other.Size();
      if size <= SHORT_STRING_CAPACITY && other.IsShortString() {
        forall i | 0 <= i < SHORT_STRING_CAPACITY {
          shortString[i] := other.shortString[i];
        }
        dataBegin := other.dataBegin;
      } else if size <= SHORT_STRING_CAPACITY {
        WriteAtEnd(other.Storage()[..size]);
      } else {
        PowerOfTwoReserve(other.Storage().Length);
        WriteAtEnd(other.Storage()[..size]);
      }
    }

    method SetToNull()
      requires Valid()
      modifies this
      ensures Valid() && dataBegin.Null? && Contents() == []
    {
      dataBegin := Null;
      dataEnd := 0;
    }

    /** Copy assignment. */
    method Assign(rhs: U8String)
      requires Valid() && rhs.Valid()
      requires rhs != this ==> shortString !in {rhs.shortString, rhs.Storage()}
      modifies this, shortString
      ensures Valid() && (Storage() == shortString || Storage() == old(Storage()) || fresh(Storage()))
      ensures Contents() == old(rhs.Contents())
      ensures rhs.Valid() && rhs.Contents() == old(rhs.Contents())
    {
      if rhs == this {
        return;
      }
      SetToNull();
      CopyInto(rhs);
    }

    /** Move assignment: the buffer changes hands and the other string is empty. */
    method MoveAssign(rhs: U8String)
      requires Valid() && rhs.Valid()
      requires rhs != this ==> shortString !in {rhs.shortString, rhs.Storage()}
      modifies this, shortString, rhs
      ensures Valid() && Contents() == old(rhs.Contents())
      ensures rhs != this ==> rhs.Valid() && rhs.Contents() == []
      ensures Storage() in {shortString, old(rhs.Storage())}
    {
      if rhs == this {
        return;
      }
      forall i | 0 <= i < SHORT_STRING_CAPACITY {
        shortString[i] := rhs.shortString[i];
      }
      dataBegin, dataEnd := rhs.dataBegin, rhs.dataEnd;
      rhs.SetToNull();
    }

    /** Assignment of a string view that is not a part of this string. */
    method AssignView(rhs: seq<Byte>)
      requires Valid()
      modifies this, Storage()
      ensures Valid() && (Storage() == old(Storage()) || fresh(Storage()))
      ensures Contents() == rhs
    {
      if |rhs| == 0 {
        Clear();
        return;
      }
      Reserve(|rhs|);
      SetSize(0);
      WriteAtEnd(rhs);
    }
  }
}
