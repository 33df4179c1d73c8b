/** A buffer that keeps at most a fixed number of bytes of what a subprocess
    writes, and remembers whether any was lost. */
module BoundedOutput {
  import opened Bytes

  /** The first `maximum` bytes of everything written. */
  function Kept(written: seq<byte>, maximum: nat): seq<byte> {
    if |written| <= maximum then written else written[..maximum]
  }

  class BoundedBuffer {
    var contents: seq<byte>
    const maximum: nat
    var overflowed: bool
    ghost var written: seq<byte>

    ghost predicate Valid()
      reads this
    {
      contents == Kept(written, maximum) && (overflowed <==> |written| > maximum)
    }

    constructor (maximum: nat)
      ensures Valid() && this.maximum == maximum && written == []
    {
      this.maximum := maximum;
      contents, overflowed, written := [], false, [];
    }

    /** Always takes the whole value; fails when some of it does not fit. */
    method Write(value: seq<byte>) returns (n: nat, ok: bool)
      requires Valid()
      modifies this`contents, this`overflowed, this`written
      ensures Valid() && written == old(written) + value
      ensures n == |value| && (ok <==> |old(contents)| + |value| <= maximum)
    {
      written := written + value;
      n := |value|;
      if |contents| + |value| > maximum {
        overflowed := true;
        var remaining := maximum - |contents|;
        if remaining > 0 {
          contents := contents + value[..remaining];
        }
        return n, false;
      }
      contents := contents + value;
      ok := true;
    }
  }
}
