/** The ROM image being patched: a random-access byte store over an open
    file. Only its contents are modelled; opening, the `.gb` extension check
    and closing are not. */
module GB {
  import opened Bytes

  class GBFile {
    var contents: seq<bv8>

    constructor (initial: seq<bv8>)
      ensures contents == initial
    {
      contents := initial;
    }

    /** Reads at most `size` bytes from `position`, fewer near the end. */
    method Read(position: nat, size: nat) returns (data: seq<bv8>)
      ensures |data| <= size
      ensures data == ReadAt(contents, position, size)
    {
      data := ReadAt(contents, position, size);
    }

    /** Overwrites the bytes from `position` on with `data`, extending the
        file when the write runs past its end. */
    method Write(position: nat, data: seq<bv8>)
      modifies this
      ensures contents == Overwrite(old(contents), position, data)
    {
      contents := Overwrite(contents, position, data);
    }
  }
}
