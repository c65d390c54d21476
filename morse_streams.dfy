/** The coder's two producers over a whole input: each reads the input line
    by line and emits, line after line, the items of the per-line encoder or
    decoder. The reactive emitter becomes the returned sequence of items;
    the consumer's cancellation becomes the answers `isCancelled` gives, one
    per line, since the coder asks only before each line it has read. */
module MorseStreams {
  import opened MorseEncoding
  import opened MorseDecoding

  /** The items a producer emits for the lines `lines`, in order, when it
      emits `lineItems(line)` for each line. */
  function Produced(lineItems: string -> seq<string>, lines: seq<string>): seq<string> {
    if lines == [] then [] else Produced(lineItems, lines[..|lines| - 1]) + lineItems(lines[|lines| - 1])
  }

  /** The items the encoder emits for the lines `lines`, in order. */
  function EncodedLines(lines: seq<string>): seq<string> {
    Produced(EncodedLine, lines)
  }

  /** The items the decoder emits for the lines `lines`, in order. */
  function DecodedLines(lines: seq<string>): seq<string> {
    Produced(DecodedLine, lines)
  }

  /** How many lines are processed when the consumer's answers, one per line
      read, are `cancelled`: every line before the first cancellation seen. */
  function Processed(cancelled: seq<bool>): (r: nat)
    ensures r <= |cancelled|
    ensures forall i :: 0 <= i < r ==> !cancelled[i]
    ensures r < |cancelled| ==> cancelled[r]
  {
    if cancelled == [] then 0
    else if cancelled[0] then 0
    else 1 + Processed(cancelled[1..])
  }

  /** The count of processed lines is the first position where a
      cancellation is seen, or all of them. */
  lemma ProcessedIs(cancelled: seq<bool>, k: nat)
    requires k <= |cancelled| && forall j :: 0 <= j < k ==> !cancelled[j]
    requires k < |cancelled| ==> cancelled[k]
    ensures Processed(cancelled) == k
  {
  }

  /** The encode producer. `cancelled[i]` is the consumer's answer when asked,
      after line `i` is read, whether it has cancelled. The producer emits the
      items of every line up to the first cancellation and completes only when
      none is seen. */
  method Encode(lines: seq<string>, cancelled: seq<bool>) returns (items: seq<string>, completed: bool)
    requires |cancelled| == |lines|
    ensures items == EncodedLines(lines[..Processed(cancelled)])
    ensures items <= EncodedLines(lines)
    ensures completed <==> Processed(cancelled) == |lines|
  {
    items := [];
    var i := 0;
    while i < |lines|
      invariant 0 <= i <= |lines|
      invariant forall j :: 0 <= j < i ==> !cancelled[j]
      invariant items == EncodedLines(lines[..i])
    {
      if cancelled[i] {
        ProcessedIs(cancelled, i);
        ProducedCut(EncodedLine, lines, i);
        return items, false;
      }
      assert forall j :: 0 <= j < i + 1 ==> !cancelled[j];
      items := EncodeNextLine(lines, i, items);
      i := i + 1;
    }
    assert lines[..i] == lines;
    ProcessedIs(cancelled, i);
    completed := true;
  }

  /** The decode producer, with the same reading of `cancelled`. */
  method Decode(lines: seq<string>, cancelled: seq<bool>) returns (items: seq<string>, completed: bool)
    requires |cancelled| == |lines|
    ensures items == DecodedLines(lines[..Processed(cancelled)])
    ensures items <= DecodedLines(lines)
    ensures completed <==> Processed(cancelled) == |lines|
  {
    items := [];
    var i := 0;
    while i < |lines|
      invariant 0 <= i <= |lines|
      invariant forall j :: 0 <= j < i ==> !cancelled[j]
      invariant items == DecodedLines(lines[..i])
    {
      if cancelled[i] {
        ProcessedIs(cancelled, i);
        ProducedCut(DecodedLine, lines, i);
        return items, false;
      }
      assert forall j :: 0 <= j < i + 1 ==> !cancelled[j];
      items := DecodeNextLine(lines, i, items);
      i := i + 1;
    }
    assert lines[..i] == lines;
    ProcessedIs(cancelled, i);
    completed := true;
  }

  /** One turn of the encode producer's read loop: the items of the next
      line follow those already emitted. */
  method EncodeNextLine(lines: seq<string>, i: nat, emitted: seq<string>) returns (items: seq<string>)
    requires i < |lines| && emitted == EncodedLines(lines[..i])
    ensures items == EncodedLines(lines[..i + 1])
  {
    var lineItems := EncodeLine(lines[i]);
    ProducedSnoc(EncodedLine, lines, i);
    items := emitted + lineItems;
  }

  /** One turn of the decode producer's read loop. */
  method DecodeNextLine(lines: seq<string>, i: nat, emitted: seq<string>) returns (items: seq<string>)
    requires i < |lines| && emitted == DecodedLines(lines[..i])
    ensures items == DecodedLines(lines[..i + 1])
  {
    var lineItems := DecodeLine(lines[i]);
    ProducedSnoc(DecodedLine, lines, i);
    items := emitted + lineItems;
  }

  /** Lines are processed independently: the items of two runs of lines
      are the items of the first run followed by those of the second. */
  lemma {:induction false} ProducedAppend(lineItems: string -> seq<string>, a: seq<string>, b: seq<string>)
    ensures Produced(lineItems, a + b) == Produced(lineItems, a) + Produced(lineItems, b)
  {
    if b == [] {
      assert a + b == a;
    } else {
      var init, last := b[..|b| - 1], b[|b| - 1];
      assert Produced(lineItems, a + b) == Produced(lineItems, a + init) + lineItems(last) by {
        assert (a + b)[..|a + b| - 1] == a + init;
        assert (a + b)[|a + b| - 1] == last;
      }
      ProducedAppend(lineItems, a, init);
    }
  }

  /** Reading one more line adds the items emitted for it. */
  lemma ProducedSnoc(lineItems: string -> seq<string>, lines: seq<string>, i: nat)
    requires i < |lines|
    ensures Produced(lineItems, lines[..i + 1]) == Produced(lineItems, lines[..i]) + lineItems(lines[i])
  {
    assert lines[..i + 1][..i] == lines[..i];
  }

  /** Cutting the lines anywhere cuts the items between the same lines. */
  lemma ProducedCut(lineItems: string -> seq<string>, lines: seq<string>, k: nat)
    requires k <= |lines|
    ensures Produced(lineItems, lines) == Produced(lineItems, lines[..k]) + Produced(lineItems, lines[k..])
  {
    var a, b := lines[..k], lines[k..];
    assert a + b == lines by {
      assert |a + b| == |lines|;
      forall i | 0 <= i < |lines| ensures (a + b)[i] == lines[i] {
        if i < k {
          assert (a + b)[i] == a[i];
        } else {
          assert (a + b)[i] == b[i - k];
        }
      }
    }
    ProducedAppend(lineItems, a, b);
  }

  /** Lines are encoded independently. */
  lemma EncodedLinesAppend(a: seq<string>, b: seq<string>)
    ensures EncodedLines(a + b) == EncodedLines(a) + EncodedLines(b)
  {
    ProducedAppend(EncodedLine, a, b);
  }

  /** Lines are decoded independently, as they are encoded. */
  lemma DecodedLinesAppend(a: seq<string>, b: seq<string>)
    ensures DecodedLines(a + b) == DecodedLines(a) + DecodedLines(b)
  {
    ProducedAppend(DecodedLine, a, b);
  }

  /** A cancelled encoding emits a prefix of what the complete one emits, and
      every line it emits for is emitted whole. */
  lemma EncodeCancelledIsPrefix(lines: seq<string>, cancelled: seq<bool>)
    requires |cancelled| == |lines|
    ensures var k := Processed(cancelled);
      EncodedLines(lines) == EncodedLines(lines[..k]) + EncodedLines(lines[k..])
  {
    ProducedCut(EncodedLine, lines, Processed(cancelled));
  }

  /** A cancelled decoding emits a prefix of what the complete one emits. */
  lemma DecodeCancelledIsPrefix(lines: seq<string>, cancelled: seq<bool>)
    requires |cancelled| == |lines|
    ensures var k := Processed(cancelled);
      DecodedLines(lines) == DecodedLines(lines[..k]) + DecodedLines(lines[k..])
  {
    ProducedCut(DecodedLine, lines, Processed(cancelled));
  }

  /** Cancelling before the first line means nothing is emitted; an input
      with no line completes with no item. */
  lemma CancelledAtOnce(lines: seq<string>, cancelled: seq<bool>)
    requires |cancelled| == |lines|
    requires lines == [] || cancelled[0]
    ensures Processed(cancelled) == 0
    ensures EncodedLines(lines[..Processed(cancelled)]) == [] && DecodedLines(lines[..Processed(cancelled)]) == []
  {
    assert lines[..0] == [];
  }
}
