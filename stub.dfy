/**
 * StubStorage (test/backends/test_proxy.py): the storage the proxy's tests run it on,
 * a dict from physical address to the bytes stored there.
 */
module Stub {
  import opened Types
  import opened Builtins

  class StubStorage {
    var data: map<int, Bytes>
    /** The payload of the most recent put_data, which the tests inspect. */
    var last: Option<Bytes>

    constructor ()
      ensures data == map[] && last == None
    {
      data := map[];
      last := None;
    }

    /** The stored bytes; KeyError when nothing is stored at a. */
    method GetData(a: int) returns (r: Result<Bytes>)
      ensures a in data ==> r == Ok(data[a])
      ensures a !in data ==> r == Err(KeyError)
    {
      if a in data {
        r := Ok(data[a]);
      } else {
        r := Err(KeyError);
      }
    }

    method PutData(a: int, d: Bytes)
      modifies this
      ensures data == old(data)[a := d] && last == Some(d)
    {
      data := data[a := d];
      last := Some(d);
    }

    /** Drops the block stored at a; KeyError, changing nothing, when there is none. */
    method DelData(a: int) returns (r: Outcome)
      modifies this
      ensures last == old(last)
      ensures a in old(data) ==> r == Pass && data == old(data) - {a}
      ensures a !in old(data) ==> r == Fail(KeyError) && data == old(data)
    {
      if a in data {
        data := data - {a};
        r := Pass;
      } else {
        r := Fail(KeyError);
      }
    }

    /** The lowest address with nothing stored at it. */
    method GetFreeAddress() returns (a: nat)
      ensures a !in data
      ensures forall i :: 0 <= i < a ==> i in data
      ensures a == LeastFree(data.Keys)
    {
      a := 0;
      while a in data
        invariant forall i :: 0 <= i < a ==> i in data
        decreases |set k | k in data && k >= a|
      {
        var later, now := set k | k in data && k >= a + 1, set k | k in data && k >= a;
        assert later == now - {a};
        a := a + 1;
      }
      LeastFreeUnique(data.Keys, a);
    }
  }
}
