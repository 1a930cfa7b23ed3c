// The compiled rule: three byte buffers, with the calls that release them counted.
module Packs {
  import opened Basics

  // An allocated, zeroed buffer.
  class Buffer {
    const bytes: array<Byte>
    ghost var frees: nat

    constructor (length: nat)
      ensures fresh(bytes) && bytes.Length == length && frees == 0
      ensures forall i :: 0 <= i < length ==> bytes[i] == 0
    {
      bytes := new Byte[length](_ => 0);
      frees := 0;
    }

    method Free()
      modifies this`frees
      ensures frees == old(frees) + 1
    {
      frees := frees + 1;
    }
  }

  // Each of some buffers has been freed n times.
  ghost predicate Freed(bs: seq<Buffer>, n: nat)
    reads bs
  {
    forall b :: b in bs ==> b.frees == n
  }

  class Pack {
    var key: Buffer?
    var mask: Buffer?
    var params: Buffer?
    var paramsLen: nat
    // The buffers allocated for this pack since it was initialised.
    ghost var buffers: seq<Buffer>

    constructor ()
      ensures key == null && mask == null && params == null && paramsLen == 0 && buffers == []
    {
      key, mask, params, paramsLen, buffers := null, null, null, 0, [];
    }

    method Init()
      modifies this
      ensures key == null && mask == null && params == null && paramsLen == 0 && buffers == []
    {
      key, mask, params, paramsLen, buffers := null, null, null, 0, [];
    }

    // Frees the buffers the fields point at and forgets them.
    method Clear()
      requires key != null ==> key != mask && key != params
      requires mask != null ==> mask != params
      modifies this`key, this`mask, this`params, key, mask, params
      ensures key == null && mask == null && params == null
      ensures old(key) != null ==> old(key).frees == old(key.frees) + 1
      ensures old(mask) != null ==> old(mask).frees == old(mask.frees) + 1
      ensures old(params) != null ==> old(params).frees == old(params.frees) + 1
    {
      if key != null {
        key.Free();
        key := null;
      }
      if mask != null {
        mask.Free();
        mask := null;
      }
      if params != null {
        params.Free();
        params := null;
      }
    }
  }
}
