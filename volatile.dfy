/** The upstream volatile slice the region delegates its copies to, and the
    byte streams (`Read` sources and `Write` sinks) of the streaming calls.

    The slice's code is not part of this model. What follows is its ASSUMED
    contract over a mapping of `len` bytes:
    - `write(buf, off)` / `read(buf, off)` fail when `off > len`, and otherwise
      copy `min(buf.len, len - off)` bytes and return that count;
    - `write_slice` / `read_slice` copy that many bytes and then fail with
      `PartialBuffer { expected: buf.len, completed }` if the copy was short;
    - the streaming calls `read_from`, `read_exact_from`, `write_to` and
      `write_all_to` fail when `off + count > len`;
    - `read_exact_from` reads straight into the mapping, so when it fails
      on a short read the bytes it got before the failure stay stored;
    - `write_all_to` hands the sink the bytes of `[off, off + count)` in
      order, so what the sink took is a prefix of them;
    - a slice error other than `PartialBuffer` reaches the caller as
      `InvalidBackendAddress`, and a stream error as `IOError`.

    A stream is a finite script of outcomes, one per `read`/`write` call;
    once the script is used up the stream reports end of file (a `read` or
    `write` of 0 bytes). */
module Volatile {
  import opened Types

  /** Number of bytes `write`/`read` copies, or its bounds error. */
  function CopyCount(len: nat, off: nat, bufLen: nat): (r: Result<nat>)
    ensures r.Err? <==> off > len
    ensures r.Err? ==> r.error == InvalidBackendAddress
    ensures r.Ok? ==> r.value <= bufLen && off + r.value <= len
    ensures r.Ok? ==> r.value == bufLen || off + r.value == len
  {
    if off > len then Err(InvalidBackendAddress) else Ok(Min(bufLen, len - off))
  }

  /** Outcome of `write_slice`/`read_slice`: all of `buf` or an error. */
  function SliceOutcome(len: nat, off: nat, bufLen: nat): (r: Result<()>)
    ensures r.Ok? <==> off <= len && bufLen <= len - off
    ensures r.Err? && off <= len ==> r.error == PartialBuffer(bufLen, len - off)
    ensures off > len ==> r == Err(InvalidBackendAddress)
  {
    match CopyCount(len, off, bufLen)
    case Err(e) => Err(e)
    case Ok(n) => if n != bufLen then Err(PartialBuffer(bufLen, n)) else Ok(())
  }

  /** Bytes transferred by `write_slice`/`read_slice` before they return. */
  function SliceCompleted(len: nat, off: nat, bufLen: nat): (n: nat)
    ensures off > len ==> n == 0
    ensures off <= len ==> n == Min(bufLen, len - off)
    ensures SliceOutcome(len, off, bufLen).Ok? ==> n == bufLen
    ensures SliceOutcome(len, off, bufLen) == Err(PartialBuffer(bufLen, n)) || n == 0 || n == bufLen
  {
    match CopyCount(len, off, bufLen)
    case Err(_) => 0
    case Ok(n) => n
  }

  /** Memory `mem` after `data` is copied in at `off`. */
  function Overwrite(mem: seq<Byte>, off: nat, data: seq<Byte>): (r: seq<Byte>)
    requires off + |data| <= |mem|
    ensures |r| == |mem|
    ensures forall i :: 0 <= i < |r| && off <= i < off + |data| ==> r[i] == data[i - off]
    ensures forall i :: 0 <= i < |r| && !(off <= i < off + |data|) ==> r[i] == mem[i]
  {
    mem[..off] + data + mem[off + |data|..]
  }

  /** Write then read of the same range returns the bytes written. */
  lemma {:induction false} OverwriteThenRead(mem: seq<Byte>, off: nat, data: seq<Byte>)
    requires off + |data| <= |mem|
    ensures Overwrite(mem, off, data)[off..off + |data|] == data
  {
    var r := Overwrite(mem, off, data);
    forall i | 0 <= i < |data|
      ensures r[off..off + |data|][i] == data[i]
    {
      assert r[off..off + |data|][i] == r[off + i];
    }
  }

  /** Whether a streaming call over `[off, off + count)` stays in the mapping. */
  predicate StreamInBounds(len: nat, off: nat, count: nat) {
    off + count <= len
  }

  // ---- Read sources ----

  /** One scripted outcome of `Read::read`. */
  datatype ReadOutcome = Data(bytes: seq<Byte>) | Interrupted | Failed

  /** Result of reading from a script, with the script left afterwards. */
  datatype ReadStep = ReadStep(res: Result<seq<Byte>>, rest: seq<ReadOutcome>)

  /** `n` interrupted reads in a row. */
  function Interrupts(n: nat): (s: seq<ReadOutcome>)
    ensures |s| == n && forall i :: 0 <= i < n ==> s[i] == Interrupted
  {
    if n == 0 then [] else [Interrupted] + Interrupts(n - 1)
  }

  /** One `read` into a buffer of `cap` bytes, retried while it is
      interrupted; another error becomes `IOError`. A source never returns
      more bytes than the buffer holds. */
  function ReadOnce(src: seq<ReadOutcome>, cap: nat): (r: ReadStep)
    ensures r.res.Ok? ==> |r.res.value| <= cap
    ensures r.res.Err? ==> r.res.error == IOError
    ensures |r.rest| <= |src|
    decreases |src|
  {
    if |src| == 0 then ReadStep(Ok([]), [])
    else match src[0]
      case Interrupted => ReadOnce(src[1..], cap)
      case Failed => ReadStep(Err(IOError), src[1..])
      case Data(bs) => ReadStep(Ok(bs[..Min(|bs|, cap)]), src[1..])
  }

  /** A read consumes a prefix of the script and leaves the rest. */
  lemma {:induction false} ReadOnceLeavesSuffix(src: seq<ReadOutcome>, cap: nat)
    ensures ReadOnce(src, cap).rest == src[|src| - |ReadOnce(src, cap).rest|..]
    decreases |src|
  {
    if |src| > 0 {
      ReadOnceLeavesSuffix(src[1..], cap);
      assert src[1..][|src[1..]| - |ReadOnce(src[1..], cap).rest|..]
          == src[|src| - |ReadOnce(src[1..], cap).rest|..];
    }
  }

  /** Interrupted reads are retried and never change the outcome. */
  lemma {:induction false} InterruptsIgnored(n: nat, src: seq<ReadOutcome>, cap: nat)
    ensures ReadOnce(Interrupts(n) + src, cap) == ReadOnce(src, cap)
  {
    if n > 0 {
      var s := Interrupts(n) + src;
      assert s[0] == Interrupted;
      assert s[1..] == Interrupts(n - 1) + src;
      assert ReadOnce(s, cap) == ReadOnce(s[1..], cap);
      InterruptsIgnored(n - 1, src, cap);
    } else {
      assert Interrupts(n) + src == src;
    }
  }

  /** `src[k]` is an error and every outcome before it an interruption. */
  predicate FirstFailure(src: seq<ReadOutcome>, k: nat) {
    k < |src| && src[k] == Failed && forall j :: 0 <= j < k ==> src[j] == Interrupted
  }

  /** A read fails exactly when the first outcome that is not an interruption
      is an error. */
  lemma {:induction false} ReadOnceFails(src: seq<ReadOutcome>, cap: nat)
    ensures ReadOnce(src, cap).res.Err? <==> exists k: nat :: FirstFailure(src, k)
    decreases |src|
  {
    if |src| > 0 {
      ReadOnceFails(src[1..], cap);
      if src[0] == Interrupted {
        forall k: nat | FirstFailure(src[1..], k) ensures FirstFailure(src, k + 1) {}
        forall k: nat | FirstFailure(src, k) ensures k > 0 && FirstFailure(src[1..], k - 1) {}
      } else if src[0] == Failed {
        assert FirstFailure(src, 0);
      } else {
        forall k: nat | FirstFailure(src, k) ensures false {}
      }
    }
  }

  /** Result of `read_exact`: the bytes delivered, whether all `need` came,
      and the script left afterwards. */
  datatype ExactStep = ExactStep(got: seq<Byte>, ok: bool, rest: seq<ReadOutcome>)

  /** `Read::read_exact` into `need` bytes: reads until full, retries
      interruptions, stops on end of file or on another error. */
  function ReadExact(src: seq<ReadOutcome>, need: nat): (r: ExactStep)
    ensures |r.got| <= need
    ensures r.ok <==> |r.got| == need
    ensures |r.rest| <= |src|
    decreases |src|
  {
    if need == 0 then ExactStep([], true, src)
    else if |src| == 0 then ExactStep([], false, [])
    else match src[0]
      case Interrupted => ReadExact(src[1..], need)
      case Failed => ExactStep([], false, src[1..])
      case Data(bs) =>
        if |bs| == 0 then ExactStep([], false, src[1..])
        else
          var chunk := bs[..Min(|bs|, need)];
          var more := ReadExact(src[1..], need - |chunk|);
          ExactStep(chunk + more.got, more.ok, more.rest)
  }

  // ---- Write sinks ----

  /** One scripted outcome of `Write::write`: how many bytes the sink took. */
  datatype WriteOutcome = Accepted(n: nat) | WriteInterrupted | WriteFailed

  /** One `write` of `cap` bytes, retried while interrupted; a sink never
      takes more than it is offered. */
  function WriteOnce(dst: seq<WriteOutcome>, cap: nat): (r: Result<nat>)
    ensures r.Ok? ==> r.value <= cap
    ensures r.Err? ==> r.error == IOError
    decreases |dst|
  {
    if |dst| == 0 then Ok(0)
    else match dst[0]
      case WriteInterrupted => WriteOnce(dst[1..], cap)
      case WriteFailed => Err(IOError)
      case Accepted(n) => Ok(Min(n, cap))
  }

  /** `Write::write_all` of `need` bytes: succeeds only when the sink takes
      them all; a write of 0 bytes or another error fails it. */
  function WriteAll(dst: seq<WriteOutcome>, need: nat): (ok: bool)
    decreases |dst|
  {
    if need == 0 then true
    else if |dst| == 0 then false
    else match dst[0]
      case WriteInterrupted => WriteAll(dst[1..], need)
      case WriteFailed => false
      case Accepted(n) => n > 0 && WriteAll(dst[1..], need - Min(n, need))
  }

  /** Sum of what a sink accepts, each write capped by what is still owed. */
  function Accepts(dst: seq<WriteOutcome>, need: nat): (total: nat)
    ensures total <= need
    decreases |dst|
  {
    if need == 0 || |dst| == 0 then 0
    else match dst[0]
      case WriteInterrupted => Accepts(dst[1..], need)
      case WriteFailed => 0
      case Accepted(n) => if n == 0 then 0 else Min(n, need) + Accepts(dst[1..], need - Min(n, need))
  }

  /** `write_all` succeeds exactly when the sink takes every byte. */
  lemma {:induction false} WriteAllTakesAll(dst: seq<WriteOutcome>, need: nat)
    ensures WriteAll(dst, need) <==> Accepts(dst, need) == need
    decreases |dst|
  {
    if need > 0 && |dst| > 0 {
      WriteAllTakesAll(dst[1..], need);
      match dst[0]
      case WriteInterrupted =>
      case WriteFailed =>
      case Accepted(n) =>
        if n > 0 {
          WriteAllTakesAll(dst[1..], need - Min(n, need));
        }
    }
  }
}
