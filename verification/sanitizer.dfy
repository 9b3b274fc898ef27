/**
 * The raw-output sanitizer of ExecuteWslCommandAsync: standard output is
 * read in chunks of at most BufferSize bytes, every 0x00 byte is dropped,
 * the remaining bytes are kept in order and finally decoded as UTF-8.
 */
module Sanitizer {
  import opened Seqs
  import Text

  newtype byte = x: int | 0 <= x < 0x100

  /** Length of the buffer each read of standard output fills. */
  const BufferSize: nat := 4096

  /** Reference definition: the whole stream with every 0x00 byte removed. */
  function StripNul(s: seq<byte>): (r: seq<byte>)
    ensures |r| <= |s|
    ensures forall i :: 0 <= i < |r| ==> r[i] != 0
  {
    if |s| == 0 then [] else (if s[0] == 0 then [] else [s[0]]) + StripNul(s[1..])
  }

  /** Every non-zero byte is kept, as often as it occurs in the input. */
  lemma {:induction false} StripNulContents(s: seq<byte>)
    ensures multiset(StripNul(s)) == multiset(s)[0 := 0]
    decreases |s|
  {
    if |s| > 0 {
      assert s == [s[0]] + s[1..];
      StripNulContents(s[1..]);
    }
  }

  /** Filtering commutes with concatenation, so where the stream is cut into
      chunks does not matter. */
  lemma {:induction false} StripNulAppend(a: seq<byte>, b: seq<byte>)
    ensures StripNul(a + b) == StripNul(a) + StripNul(b)
    decreases |a|
  {
    if |a| == 0 {
      assert a + b == b;
    } else {
      assert (a + b)[1..] == a[1..] + b;
      StripNulAppend(a[1..], b);
    }
  }

  lemma StripNulSingle(b: byte)
    ensures StripNul([b]) == if b == 0 then [] else [b]
  {
    assert [b][1..] == [];
  }

  /** A stream without 0x00 bytes passes through unchanged. */
  lemma {:induction false} StripNulNoNul(s: seq<byte>)
    requires forall i :: 0 <= i < |s| ==> s[i] != 0
    ensures StripNul(s) == s
    decreases |s|
  {
    if |s| > 0 {
      StripNulNoNul(s[1..]);
    }
  }

  lemma StripNulIdempotent(s: seq<byte>)
    ensures StripNul(StripNul(s)) == StripNul(s)
  {
    StripNulNoNul(StripNul(s));
  }

  /** Filtering the chunks one by one is filtering their concatenation. */
  lemma {:induction false} StripNulChunks(chunks: seq<seq<byte>>)
    ensures StripNul(Concat(chunks)) == Concat(seq(|chunks|, k requires 0 <= k < |chunks| => StripNul(chunks[k])))
    decreases |chunks|
  {
    if |chunks| > 0 {
      var filtered := seq(|chunks|, k requires 0 <= k < |chunks| => StripNul(chunks[k]));
      var rest := seq(|chunks| - 1, k requires 0 <= k < |chunks| - 1 => StripNul(chunks[1..][k]));
      assert filtered[1..] == rest;
      StripNulChunks(chunks[1..]);
      StripNulAppend(chunks[0], Concat(chunks[1..]));
    }
  }

  /** The chunks a read loop consumes: every read up to the first one that
      returns no bytes, which signals the end of the stream. */
  function Received(results: seq<seq<byte>>): (r: seq<seq<byte>>)
    ensures |r| <= |results| && r == results[..|r|]
    ensures forall k :: 0 <= k < |r| ==> |r[k]| > 0
    ensures |r| < |results| ==> |results[|r|]| == 0
  {
    if |results| == 0 || |results[0]| == 0 then [] else [results[0]] + Received(results[1..])
  }

  lemma ReceivedPrefix(results: seq<seq<byte>>, k: nat)
    requires k <= |results|
    requires forall j :: 0 <= j < k ==> |results[j]| > 0
    requires k < |results| ==> |results[k]| == 0
    ensures Received(results) == results[..k]
  {
  }

  /** The inner loop of ExecuteWslCommandAsync: appends the non-zero bytes
      of one chunk to the output collected so far. */
  method AppendFiltered(output: seq<byte>, buffer: seq<byte>) returns (extended: seq<byte>)
    ensures extended == output + StripNul(buffer)
  {
    extended := output;
    var i := 0;
    while i < |buffer|
      invariant 0 <= i <= |buffer|
      invariant extended == output + StripNul(buffer[..i])
    {
      var b := buffer[i];
      assert buffer[..i + 1] == buffer[..i] + [b];
      StripNulAppend(buffer[..i], [b]);
      StripNulSingle(b);
      if b != 0 {
        extended := extended + [b];
      }
      i := i + 1;
    }
    assert buffer[..i] == buffer;
  }

  /** The read loop of ExecuteWslCommandAsync: filters chunk after chunk
      until a read returns nothing. Its result is the whole received stream
      filtered at once. */
  method ReadFiltered(results: seq<seq<byte>>) returns (output: seq<byte>)
    ensures output == StripNul(Concat(Received(results)))
  {
    output := [];
    var k := 0;
    while k < |results| && |results[k]| > 0
      invariant 0 <= k <= |results|
      invariant forall j :: 0 <= j < k ==> |results[j]| > 0
      invariant output == StripNul(Concat(results[..k]))
    {
      output := AppendFiltered(output, results[k]);
      assert results[..k + 1] == results[..k] + [results[k]];
      ConcatSnoc(results[..k], results[k]);
      StripNulAppend(Concat(results[..k]), results[k]);
      k := k + 1;
    }
    ReceivedPrefix(results, k);
  }

  /** Encoding.UTF8.GetString as far as this model goes: an ASCII byte
      decodes to the character with the same code; any other byte is shown
      as the replacement character. */
  function Decode(bytes: seq<byte>): (s: string)
    ensures |s| == |bytes|
    ensures forall i :: 0 <= i < |bytes| && bytes[i] < 0x80 ==> s[i] as int == bytes[i] as int
  {
    seq(|bytes|, i requires 0 <= i < |bytes| =>
      if bytes[i] < 0x80 then (bytes[i] as int) as char else '\U{FFFD}')
  }

  /** The byte that encodes an ASCII character. */
  function AsciiByte(ch: char): (b: byte)
    requires ch as int < 0x80
    ensures b as int == ch as int
  {
    ch as int as byte
  }

  lemma DecodeAsciiByte(ch: char)
    requires ch as int < 0x80
    ensures Decode([AsciiByte(ch)]) == [ch]
  {
  }

  lemma DecodeAppend(a: seq<byte>, b: seq<byte>)
    ensures Decode(a + b) == Decode(a) + Decode(b)
  {
  }

  /** For ASCII bytes, dropping NUL bytes before decoding is dropping NUL
      characters after it: no other character is altered. */
  lemma {:induction false} DecodeStripNul(bytes: seq<byte>)
    requires forall i :: 0 <= i < |bytes| ==> bytes[i] < 0x80
    ensures Decode(StripNul(bytes)) == Text.Remove(Decode(bytes), {'\0'})
    decreases |bytes|
  {
    if |bytes| > 0 {
      var rest := bytes[1..];
      var head: seq<byte> := if bytes[0] == 0 then [] else [bytes[0]];
      assert Decode(StripNul(rest)) == Text.Remove(Decode(rest), {'\0'}) by {
        DecodeStripNul(rest);
      }
      assert Decode(StripNul(bytes)) == Decode(head) + Decode(StripNul(rest)) by {
        DecodeAppend(head, StripNul(rest));
      }
      var text := Decode(bytes);
      assert text[1..] == Decode(rest);
      assert Decode(head) == if text[0] in {'\0'} then [] else [text[0]];
      assert Text.Remove(text, {'\0'}) == (if text[0] in {'\0'} then [] else [text[0]]) + Text.Remove(text[1..], {'\0'});
    }
  }
}
