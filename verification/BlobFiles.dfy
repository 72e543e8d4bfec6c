/** The two loops of the blob store over one descriptor. The operating system
    decides how many bytes each call moves. */
module BlobFiles {
  import opened Options
  import opened Text
  import opened BlobStore

  function Min(a: int, b: int): int {
    if a < b then a else b
  }

  class File {
    var data: Bytes

    constructor ()
      ensures data == []
    {
      data := [];
    }

    /** `os.write`: takes at most `wish` bytes of `chunk`; the count says how many. */
    method Write(chunk: Bytes, wish: int) returns (count: int)
      modifies this
      ensures count == Min(wish, |chunk|)
      ensures data == if count > 0 then old(data) + chunk[..count] else old(data)
    {
      count := Min(wish, |chunk|);
      if count > 0 {
        data := data + chunk[..count];
      }
    }

    /** `_write_all`: the whole body, however the writes are cut short; a write that makes no
        progress is an error and leaves a proper prefix behind. */
    method WriteAll(body: Bytes, wishes: nat -> int) returns (ok: bool)
      modifies this
      ensures ok ==> data == old(data) + body
      ensures !ok ==> exists k :: 0 <= k < |body| && data == old(data) + body[..k]
      ensures (forall i :: wishes(i) >= 1) ==> ok
    {
      var written, calls := 0, 0;
      while written < |body|
        invariant 0 <= written <= |body|
        invariant data == old(data) + body[..written]
      {
        var count := Write(body[written..], wishes(calls));
        if count <= 0 {
          return false;
        }
        assert body[..written] + body[written..][..count] == body[..written + count];
        written, calls := written + count, calls + 1;
      }
      assert body[..written] == body;
      return true;
    }

    /** `os.read` at `position`: at least one byte while any is left, nothing at the end. */
    method Read(position: nat, size: nat, wish: nat) returns (chunk: Bytes)
      requires position <= |data| && size >= 1
      ensures chunk == [] <==> position == |data|
      ensures position + |chunk| <= |data| && |chunk| <= size
      ensures chunk == data[position..position + |chunk|]
    {
      var count := Min(Min(if wish == 0 then 1 else wish, size), |data| - position);
      chunk := data[position..position + count];
    }

    /** `_read_existing_bounded`: the whole file if it is no longer than `maximum`, an error otherwise,
        however the reads are cut short. */
    method ReadBounded(maximum: nat, wishes: nat -> nat) returns (r: Option<Bytes>)
      ensures r == if |data| <= maximum then Some(data) else None
    {
      var chunks: Bytes := [];
      var calls := 0;
      while true
        invariant |chunks| <= |data| && |chunks| <= maximum
        invariant chunks == data[..|chunks|]
        decreases |data| - |chunks|
      {
        var chunk := Read(|chunks|, Min(READ_CHUNK, maximum - |chunks| + 1), wishes(calls));
        if chunk == [] {
          assert data[..|data|] == data;
          return Some(chunks);
        }
        if |chunks| + |chunk| > maximum {
          return None;
        }
        chunks, calls := chunks + chunk, calls + 1;
      }
    }
  }
}
