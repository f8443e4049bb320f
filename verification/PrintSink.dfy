/** The two character sinks behind printf and snprintf (sprintf.c). */
module PrintSink {
  import opened Machine
  import opened CString

  const CHUNK := 15

  function Joined(chunks: seq<seq<uint8>>): seq<uint8> {
    if chunks == [] then [] else Joined(chunks[..|chunks| - 1]) + chunks[|chunks| - 1]
  }

  /** The console sink: characters gather in a 16-byte buffer that is handed over, as a C string, 15 at a time. */
  class ConsoleSink {
    const buffer: array<uint8>
    var offset: nat
    var written: nat
    var emitted: seq<seq<uint8>>  // the strings handed to the console
    ghost var added: seq<uint8>   // the characters added

    ghost predicate Valid()
      reads this, buffer
    {
      && buffer.Length == 16 && offset < CHUNK && written == |added|
      && (forall i :: 0 <= i < |emitted| ==> |emitted[i]| <= CHUNK)
      && (0 !in added ==> Joined(emitted) + buffer[..offset] == added)
    }

    constructor ()
      ensures Valid() && fresh(buffer) && added == [] && emitted == []
    {
      buffer := new uint8[16](_ => 0);
      offset, written, emitted, added := 0, 0, [], [];
    }

    method Add(c: uint8)
      requires Valid()
      modifies this, buffer
      ensures Valid() && added == old(added) + [c]
      ensures old(offset) < 14 ==> offset == old(offset) + 1 && emitted == old(emitted)
      ensures old(offset) == 14 ==>
        && offset == 0 && |emitted| == |old(emitted)| + 1 && emitted[..|old(emitted)|] == old(emitted)
        && (0 !in added ==> |emitted[|old(emitted)|]| == 15)
    {
      ghost var before := buffer[..offset];
      buffer[offset] := c;
      written := written + 1;
      offset := offset + 1;
      added := added + [c];
      assert buffer[..offset] == before + [c];
      if 0 !in added {
        assert forall x :: x in old(added) ==> x in added;
        assert Joined(emitted) + (before + [c]) == Joined(emitted) + before + [c];
      }
      if offset == CHUNK {
        FlushBuffer();
      }
    }

    method Flush()
      requires Valid()
      modifies this, buffer
      ensures Valid() && added == old(added) && offset == 0
      ensures 0 !in added ==> Joined(emitted) == added
      ensures old(offset) == 0 ==> emitted == old(emitted)
      ensures old(offset) > 0 ==> |emitted| == |old(emitted)| + 1 && emitted[..|old(emitted)|] == old(emitted)
    {
      FlushBuffer();
    }

    /** Flush, also in the middle of an Add, when the buffer holds 15 characters. */
    method FlushBuffer()
      requires buffer.Length == 16 && offset <= CHUNK && written == |added|
      requires forall i :: 0 <= i < |emitted| ==> |emitted[i]| <= CHUNK
      requires 0 !in added ==> Joined(emitted) + buffer[..offset] == added
      modifies this, buffer
      ensures Valid() && added == old(added) && offset == 0
      ensures 0 !in added ==> Joined(emitted) == added
      ensures old(offset) == 0 ==> emitted == old(emitted)
      ensures old(offset) > 0 ==>
        && |emitted| == |old(emitted)| + 1 && emitted[..|old(emitted)|] == old(emitted)
        && (0 !in added ==> |emitted[|old(emitted)|]| == old(offset))
    {
      ghost var pending := buffer[..offset];
      if offset == 0 {
        assert Joined(emitted) + [] == Joined(emitted);
        return;
      }
      buffer[offset] := 0;
      ghost var length := offset;
      offset := 0;
      var chunk := Text(buffer[..], 16);
      assert buffer[..][length] == 0 && buffer[..][..length] == pending;
      if 0 !in added {
        assert forall x :: x in pending ==> x in Joined(emitted) + pending;
        TextUnique(buffer[..], 16, length);
        TextFacts(buffer[..], 16);
      }
      assert |chunk| <= length by {
        ChunkLength(buffer[..], length);
      }
      ghost var chunks := emitted + [chunk];
      assert chunks[..|chunks| - 1] == emitted;
      emitted := emitted + [chunk];
      assert Joined(emitted) + buffer[..offset] == Joined(emitted);
    }
  }

  lemma ChunkLength(s: seq<uint8>, i: nat)
    requires i < |s| && s[i] == 0
    ensures |Text(s, 16)| <= i
  {
    var t := Text(s, 16);
    TextFacts(s, 16);
    assert forall k :: 0 <= k < |t| ==> t[k] == s[k] != 0;
  }

  /** The bounded sink: the offset counts every character, the buffer keeps those that fit. */
  class BoundedSink {
    const buffer: array<uint8>
    const size: nat
    var offset: nat
    ghost var added: seq<uint8>

    ghost predicate Valid()
      reads this, buffer
    {
      && size <= buffer.Length && offset == |added|
      && buffer[..Kept()] == added[..Kept()]
    }

    ghost function Kept(): nat
      reads this
    {
      if |added| <= size then |added| else size
    }

    constructor (buffer: array<uint8>, size: nat)
      requires size <= buffer.Length
      ensures Valid() && added == [] && this.buffer == buffer && this.size == size
    {
      this.buffer, this.size, offset, added := buffer, size, 0, [];
    }

    method Add(c: uint8)
      requires Valid()
      modifies this, buffer
      ensures Valid() && added == old(added) + [c]
      ensures buffer[size..] == old(buffer[size..])
    {
      if offset < size {
        buffer[offset] := c;
      }
      offset := offset + 1;
      added := added + [c];
    }

    /** Ends the string within the buffer: the text is what was added, cut to size - 1 characters. */
    method Flush()
      requires Valid() && size >= 1
      modifies buffer
      ensures offset == |added| && buffer[size..] == old(buffer[size..])
      ensures 0 !in added ==> Text(buffer[..], size) == Cut(added, size - 1)
      ensures buffer[if offset < size then offset else size - 1] == 0
    {
      if offset < size {
        buffer[offset] := 0;
      } else {
        buffer[size - 1] := 0;
      }
      ghost var end := if offset < size then offset else size - 1;
      if 0 !in added {
        assert buffer[..][..end] == added[..end];
        assert forall x :: x in added[..end] ==> x in added;
        TextUnique(buffer[..], size, end);
        TextFacts(buffer[..], size);
      }
    }
  }

  /** A whole text through the console sink: what comes out is what went in, in chunks of 15 and a rest. */
  method PrintText(text: seq<uint8>) returns (chunks: seq<seq<uint8>>)
    ensures forall i :: 0 <= i < |chunks| ==> |chunks[i]| <= 15
    ensures 0 !in text ==> Joined(chunks) == text
    ensures 0 !in text ==> |chunks| == (|text| + 14) / 15 && forall i :: 0 <= i < |text| / 15 ==> |chunks[i]| == 15
  {
    var sink := new ConsoleSink();
    for i := 0 to |text|
      invariant sink.Valid() && fresh(sink) && fresh(sink.buffer) && sink.added == text[..i]
      invariant i == 15 * |sink.emitted| + sink.offset
      invariant 0 !in text ==> forall k :: 0 <= k < |sink.emitted| ==> |sink.emitted[k]| == 15
    {
      ghost var before := sink.emitted;
      sink.Add(text[i]);
      assert forall k :: 0 <= k < |before| ==> sink.emitted[..|before|][k] == before[k];
      assert forall x :: x in sink.added ==> x in text;
    }
    ghost var before := sink.emitted;
    sink.Flush();
    assert forall k :: 0 <= k < |before| ==> sink.emitted[..|before|][k] == before[k];
    return sink.emitted;
  }

  /** A whole text through the bounded sink. */
  method FormatText(buffer: array<uint8>, size: nat, text: seq<uint8>) returns (count: nat)
    requires 1 <= size <= buffer.Length
    modifies buffer
    ensures count == |text| && buffer[size..] == old(buffer[size..])
    ensures 0 !in text ==> Text(buffer[..], size) == Cut(text, size - 1)
  {
    var sink := new BoundedSink(buffer, size);
    for i := 0 to |text|
      invariant sink.Valid() && fresh(sink) && sink.buffer == buffer && sink.size == size && sink.added == text[..i]
      invariant buffer[size..] == old(buffer[size..])
    {
      sink.Add(text[i]);
    }
    sink.Flush();
    return sink.offset;
  }
}
