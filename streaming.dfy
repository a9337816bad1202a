/** The streamed generation: the chunks of the model's response are folded, in
    arrival order, into one accumulated text, and the text so far is shown
    after each chunk that carries text. The generation service is an input:
    the chunk texts it streamed and whether the stream then raised. */
module Streaming {

  /** A streamed response: the text of each chunk in arrival order (the empty
      string for a chunk without text), and whether submitting or iterating
      raised after these chunks. */
  datatype Stream = Stream(chunks: seq<string>, fails: bool)

  /** The in-order concatenation of `parts`, read from the front. */
  function Concat(parts: seq<string>): string
  {
    if parts == [] then "" else parts[0] + Concat(parts[1..])
  }

  /** The chunks that carry text, in order. */
  function NonEmpty(parts: seq<string>): seq<string>
  {
    if parts == [] then []
    else
      var last := parts[|parts| - 1];
      NonEmpty(parts[..|parts| - 1]) + (if last != "" then [last] else [])
  }

  /** The texts shown while streaming: after each chunk with text, everything
      accumulated so far. */
  function Snapshots(parts: seq<string>): seq<string>
  {
    if parts == [] then []
    else
      var last := parts[|parts| - 1];
      Snapshots(parts[..|parts| - 1]) + (if last != "" then [Concat(parts)] else [])
  }

  lemma {:induction false} ConcatSnoc(parts: seq<string>, x: string)
    ensures Concat(parts + [x]) == Concat(parts) + x
  {
    if parts != [] {
      assert (parts + [x])[1..] == parts[1..] + [x];
      ConcatSnoc(parts[1..], x);
    }
  }

  /** The loop over the stream: each chunk with text is appended to the
      accumulator and the new accumulator is shown; chunks without text are
      skipped. */
  method Accumulate(chunks: seq<string>) returns (fullText: string, shown: seq<string>)
    ensures fullText == Concat(chunks)
    ensures shown == Snapshots(chunks)
  {
    fullText := "";
    shown := [];
    for i := 0 to |chunks|
      invariant fullText == Concat(chunks[..i])
      invariant shown == Snapshots(chunks[..i])
    {
      assert chunks[..i + 1] == chunks[..i] + [chunks[i]];
      ConcatSnoc(chunks[..i], chunks[i]);
      if chunks[i] != "" {
        fullText := fullText + chunks[i];
        shown := shown + [fullText];
      }
    }
    assert chunks[..|chunks|] == chunks;
  }

  /** Skipping chunks without text loses nothing: the accumulated text is the
      concatenation of the chunks that carry text. */
  lemma {:induction false} SkippingEmptyChunksKeepsText(parts: seq<string>)
    ensures Concat(NonEmpty(parts)) == Concat(parts)
  {
    if parts != [] {
      var front, last := parts[..|parts| - 1], parts[|parts| - 1];
      assert parts == front + [last];
      SkippingEmptyChunksKeepsText(front);
      ConcatSnoc(front, last);
      if last != "" {
        ConcatSnoc(NonEmpty(front), last);
      } else {
        assert NonEmpty(parts) == NonEmpty(front) + [];
        assert NonEmpty(parts) == NonEmpty(front);
        assert Concat(front) + last == Concat(front);
      }
    }
  }

  /** Order is kept: chunk k's text sits in the accumulated text right after
      the texts of the chunks before it and before those after it. */
  lemma {:induction false} ChunkInPlace(parts: seq<string>, k: nat)
    requires k < |parts|
    ensures Concat(parts) == Concat(parts[..k]) + parts[k] + Concat(parts[k + 1..])
    ensures Concat(parts)[|Concat(parts[..k])|..|Concat(parts[..k])| + |parts[k]|] == parts[k]
  {
    if k > 0 {
      assert parts[1..][..k - 1] == parts[1..k];
      assert parts[1..][k - 1] == parts[k];
      assert parts[1..][k..] == parts[k + 1..];
      ChunkInPlace(parts[1..], k - 1);
      assert parts[..k] == [parts[0]] + parts[1..k];
      assert parts[..k][1..] == parts[1..k];
    }
    var before := Concat(parts[..k]);
    assert Concat(parts) == before + parts[k] + Concat(parts[k + 1..]);
    assert (before + parts[k] + Concat(parts[k + 1..]))[|before|..|before| + |parts[k]|] == parts[k];
  }

  /** Each snapshot is a prefix of the final text, and the last one is the
      final text itself. */
  lemma {:induction false} SnapshotsArePrefixes(parts: seq<string>)
    ensures |Snapshots(parts)| == |NonEmpty(parts)|
    ensures forall j | 0 <= j < |Snapshots(parts)| :: Snapshots(parts)[j] <= Concat(parts)
    ensures Snapshots(parts) != [] ==> Snapshots(parts)[|Snapshots(parts)| - 1] == Concat(parts)
  {
    if parts != [] {
      var front, last := parts[..|parts| - 1], parts[|parts| - 1];
      assert parts == front + [last];
      SnapshotsArePrefixes(front);
      ConcatSnoc(front, last);
      var sf := Snapshots(front);
      assert Concat(front) <= Concat(parts);
      if last == "" {
        assert Concat(parts) == Concat(front);
      } else {
        assert Snapshots(parts) == sf + [Concat(parts)];
        forall j | 0 <= j < |sf| ensures sf[j] <= Concat(parts) {
          assert sf[j] <= Concat(front);
        }
      }
    }
  }

  /** What the observer sees grows strictly: each snapshot extends the one
      before it with at least one character. */
  lemma {:induction false} SnapshotsGrow(parts: seq<string>)
    ensures forall j | 0 <= j < |Snapshots(parts)| - 1 ::
      Snapshots(parts)[j] <= Snapshots(parts)[j + 1] && |Snapshots(parts)[j]| < |Snapshots(parts)[j + 1]|
  {
    if parts != [] {
      var front, last := parts[..|parts| - 1], parts[|parts| - 1];
      assert parts == front + [last];
      SnapshotsGrow(front);
      if last != "" {
        SnapshotsArePrefixes(front);
        ConcatSnoc(front, last);
        var sf := Snapshots(front);
        var s := sf + [Concat(parts)];
        assert Snapshots(parts) == s;
        forall j | 0 <= j < |s| - 1 ensures s[j] <= s[j + 1] && |s[j]| < |s[j + 1]| {
          if j < |sf| - 1 {
            assert s[j] == sf[j] && s[j + 1] == sf[j + 1];
          } else {
            assert s[j] == Concat(front) && s[j + 1] == Concat(front) + last;
          }
        }
      }
    }
  }

  /** The chunks "Hel", "lo, " and "world" accumulate to "Hello, world". */
  lemma HelloWorld()
    ensures Concat(["Hel", "lo, ", "world"]) == "Hello, world"
  {
  }
}
