/** The fields of `immutable_string` and `string_builder`, and how the storage union is overwritten. */
module StringObjects {

  import opened Words
  import opened StringLayout

  class ImmutableString {
    var store: tagged
    var hash: u32

    constructor FromSmall(chars: seq<byte>)
      requires |chars| <= MAX_SMALL_SIZE
      ensures Decode(store) == Small(chars) && hash == 0
    {
      InitSmallDecodes(EMPTY, chars);
      store, hash := InitSmall(EMPTY, chars), 0;
    }

    constructor FromLarge(data: u64, size: u64, owned: bool)
      ensures Decode(store) == (if owned then Owned(data, size) else Shared(data, size)) && hash == 0
    {
      InitLargeDecodes(data, size);
      store, hash := InitLarge(data, size, if owned then LargeOwned else LargeShared), 0;
    }

    /** The copy of the storage that copying and moving start from. */
    constructor FromStore(other: ImmutableString)
      ensures store == other.store && hash == other.hash
    {
      store, hash := other.store, other.hash;
    }

    /** `init_small` */
    method SetSmall(chars: seq<byte>)
      requires |chars| <= MAX_SMALL_SIZE
      modifies this`store
      ensures Decode(store) == Small(chars)
    {
      InitSmallDecodes(store, chars);
      store := InitSmall(store, chars);
    }

    /** `init_large_owned` or `init_large_shared`, once the block is there. */
    method SetLarge(data: u64, size: u64, owned: bool)
      modifies this`store
      ensures Decode(store) == if owned then Owned(data, size) else Shared(data, size)
    {
      InitLargeDecodes(data, size);
      store := InitLarge(data, size, if owned then LargeOwned else LargeShared);
    }

    /** `store = rhs.store`, the hash included. */
    method TakeStore(other: ImmutableString)
      modifies this
      ensures store == old(other.store) && hash == old(other.hash)
    {
      store, hash := other.store, other.hash;
    }

    /** `store.large.set_category(category::large_shared)`, unless the string is small. */
    method Share()
      modifies this`store
      ensures Decode(store) == SharedRep(Decode(old(store)))
    {
      if GetCategory(store) != SmallCategory {
        SetSharedDecodes(store);
        store := SetCategory(store, LargeShared);
      }
    }
  }

  class StringBuilder {
    /** 0 is the null pointer. */
    var buffer: u64
    var pos: u64
    var capacity: u64
    /** Bytes moved by reallocations since the builder was made or last released. */
    ghost var moved: nat

    constructor (capacity: u64)
      ensures buffer == 0 && pos == 0 && this.capacity == capacity && moved == 0
    {
      buffer, pos, this.capacity, moved := 0, 0, capacity, 0;
    }
  }
}
