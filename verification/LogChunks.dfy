/** Cutting a container log, which arrives in fragments, into chunks of a fixed
    size for the log store. */
module LogChunks {

  type Bytes = seq<bv8>

  function Flatten(parts: seq<Bytes>): Bytes {
    if parts == [] then [] else Flatten(parts[..|parts| - 1]) + parts[|parts| - 1]
  }

  // Together the chunks are the log; all but the last have the chunk size, and
  // the last is not empty.
  predicate IsChunking(chunks: seq<Bytes>, log: Bytes, size: nat) {
    && Flatten(chunks) == log
    && (forall i :: 0 <= i < |chunks| - 1 ==> |chunks[i]| == size)
    && (chunks != [] ==> 0 < |chunks[|chunks| - 1]| <= size)
  }

  method CollectLogs(fragments: seq<Bytes>, chunkSize: nat) returns (pushed: seq<Bytes>, logLength: nat)
    requires chunkSize > 0
    ensures IsChunking(pushed, Flatten(fragments), chunkSize)
    ensures logLength == |Flatten(fragments)|
  {
    pushed, logLength := [], 0;
    var buffer: Bytes, chunkLength := [], 0;
    for i := 0 to |fragments|
      invariant chunkLength == |buffer| < chunkSize
      invariant Flatten(pushed) + buffer == Flatten(fragments[..i])
      invariant forall k :: 0 <= k < |pushed| ==> |pushed[k]| == chunkSize
      invariant logLength == |Flatten(fragments[..i])|
    {
      assert fragments[..i + 1][..i] == fragments[..i];
      buffer := buffer + fragments[i];
      chunkLength := chunkLength + |fragments[i]|;
      logLength := logLength + |fragments[i]|;
      while chunkLength >= chunkSize
        invariant chunkLength == |buffer|
        invariant Flatten(pushed) + buffer == Flatten(fragments[..i + 1])
        invariant forall k :: 0 <= k < |pushed| ==> |pushed[k]| == chunkSize
        decreases chunkLength
      {
        var chunk := buffer[..chunkSize];
        assert buffer == chunk + buffer[chunkSize..] && (pushed + [chunk])[..|pushed|] == pushed;
        pushed := pushed + [chunk];
        buffer := buffer[chunkSize..];
        chunkLength := |buffer|;
      }
    }
    assert fragments[..|fragments|] == fragments;
    if chunkLength > 0 {
      assert (pushed + [buffer])[..|pushed|] == pushed;
      pushed := pushed + [buffer];
    }
  }

  lemma {:induction false} FlattenFront(parts: seq<Bytes>)
    requires parts != []
    ensures Flatten(parts) == parts[0] + Flatten(parts[1..])
  {
    var n := |parts| - 1;
    if n > 0 {
      FlattenFront(parts[..n]);
      assert parts[..n][1..] == parts[1..][..n - 1];
    }
  }

  // A log can be cut in one way only, so what is stored does not depend on how
  // the log was fragmented.
  lemma {:induction false} ChunkingIsUnique(a: seq<Bytes>, b: seq<Bytes>, log: Bytes, size: nat)
    requires size > 0 && IsChunking(a, log, size) && IsChunking(b, log, size)
    ensures a == b
    decreases |a|
  {
    if a != [] && b != [] {
      FlattenFront(a);
      FlattenFront(b);
      TailChunking(a, log, size);
      TailChunking(b, log, size);
      assert |a[0]| == if |log| < size then |log| else size;
      assert |b[0]| == if |log| < size then |log| else size;
      assert a[0] == log[..|a[0]|] && b[0] == log[..|b[0]|];
      assert log[|a[0]|..] == Flatten(a[1..]) && log[|b[0]|..] == Flatten(b[1..]);
      ChunkingIsUnique(a[1..], b[1..], log[|a[0]|..], size);
    } else if a != [] {
      FlattenFront(a);
    } else if b != [] {
      FlattenFront(b);
    }
  }

  lemma TailChunking(a: seq<Bytes>, log: Bytes, size: nat)
    requires size > 0 && a != [] && IsChunking(a, log, size)
    ensures |a[0]| <= |log| && IsChunking(a[1..], log[|a[0]|..], size)
    ensures |a[0]| == if |log| < size then |log| else size
  {
    FlattenFront(a);
    if |a| > 1 {
      FlattenFront(a[1..]);
      var last := a[|a| - 1];
      assert Flatten(a) == Flatten(a[..|a| - 1]) + last;
    }
  }
}
